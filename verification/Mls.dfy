/**
 The MLS delivery service (server/internal/httpserver/mls_handlers.go with the
 store calls of server/internal/storage/mls.go) as one server and many clients.

 Each store call is one atomic step and steps interleave freely. A commit is a
 compare-and-swap on the group's epoch that stores the commit and all of its
 Welcomes together (section 14 of RFC 9420 leaves this ordering to the delivery
 service).
 */
module Mls {
  import opened Bytes
  import opened Sequences
  import W = Welcomes

  type Channel = nat
  type User = nat
  type Client = nat
  type Message = seq<byte>

  const MAX_PAGE: nat := 50

  /** A group's current epoch and its commit log, one row per epoch. */
  datatype Group = Group(epoch: nat, commits: map<nat, Message>)

  /** A stored Welcome, with the epoch of the commit that carried it. */
  datatype Welcome = Welcome(channel: Channel, epoch: nat, device: W.Device, blob: Message)

  datatype Server = Server(
    groups: map<Channel, Group>,
    members: map<Channel, set<User>>,
    owners: map<W.Device, User>,
    pending: set<Welcome>)

  /** A commit submission as the handler passes it to storage. */
  datatype Submission = Submission(channel: Channel, epoch: int, message: Message, deliveries: seq<W.Delivery>)

  datatype Outcome = Accepted(epoch: nat) | GroupNotFound | EpochConflict | Outsider | DeviceNotFound

  function Recipients(deliveries: seq<W.Delivery>): set<W.Device> {
    set i, d | 0 <= i < |deliveries| && d in deliveries[i].devices :: d
  }

  /** The Welcome rows an accepted submission stores. */
  function Issued(s: Submission): set<Welcome> {
    set i, d | 0 <= i < |s.deliveries| && d in s.deliveries[i].devices ::
      Welcome(s.channel, if s.epoch < 0 then 0 else s.epoch + 1, d, s.deliveries[i].welcome)
  }

  function MembersOf(s: Server, ch: Channel): set<User> { if ch in s.members then s.members[ch] else {} }

  /** storage.SubmitMlsCommit: all of it happens, or none of it. */
  function Submit(s: Server, c: Submission): (Server, Outcome) {
    if c.channel !in s.groups then (s, GroupNotFound)
    else if s.groups[c.channel].epoch != c.epoch then (s, EpochConflict)
    else if exists d | d in Recipients(c.deliveries) :: d in s.owners && s.owners[d] !in MembersOf(s, c.channel) then (s, Outsider)
    else if exists d | d in Recipients(c.deliveries) :: d !in s.owners then (s, DeviceNotFound)
    else
      var g := s.groups[c.channel];
      (s.(groups := s.groups[c.channel := Group(g.epoch + 1, g.commits[g.epoch + 1 := c.message])],
          pending := s.pending + Issued(c)),
       Accepted(g.epoch + 1))
  }

  /** Every device a delivery names is registered to a member of the channel. */
  ghost predicate AllMembers(s: Server, c: Submission) {
    forall i, d | 0 <= i < |c.deliveries| && d in c.deliveries[i].devices ::
      d in s.owners && c.channel in s.members && s.owners[d] in s.members[c.channel]
  }

  /** Some delivery names a registered device of somebody outside the channel. */
  ghost predicate NamesOutsider(s: Server, c: Submission) {
    exists i, d | 0 <= i < |c.deliveries| && d in c.deliveries[i].devices ::
      d in s.owners && !(c.channel in s.members && s.owners[d] in s.members[c.channel])
  }

  /** x is the row of a device some delivery of the submission names, with that delivery's blob. */
  ghost predicate Carried(c: Submission, x: Welcome) {
    && x.channel == c.channel && x.epoch == c.epoch + 1
    && exists i | 0 <= i < |c.deliveries| :: x.device in c.deliveries[i].devices && x.blob == c.deliveries[i].welcome
  }

  /**
   A submission is accepted exactly when the group exists, its epoch is the one
   named and every named device is registered to a member; each other answer has
   its own condition, and changes nothing.
   */
  lemma SubmitAnswers(s: Server, c: Submission)
    ensures var outcome := Submit(s, c).1;
            if c.channel !in s.groups then outcome == GroupNotFound
            else if s.groups[c.channel].epoch != c.epoch then outcome == EpochConflict
            else if NamesOutsider(s, c) then outcome == Outsider
            else if !AllMembers(s, c) then outcome == DeviceNotFound
            else outcome == Accepted(c.epoch + 1)
    ensures !Submit(s, c).1.Accepted? ==> Submit(s, c).0 == s
  {
    hide Recipients;
    OutsiderIff(s, c);
    MembersIff(s, c);
  }

  lemma OutsiderIff(s: Server, c: Submission)
    ensures NamesOutsider(s, c) <==>
              exists d | d in Recipients(c.deliveries) :: d in s.owners && s.owners[d] !in MembersOf(s, c.channel)
  {
    if NamesOutsider(s, c) {
      var i, d :| 0 <= i < |c.deliveries| && d in c.deliveries[i].devices && d in s.owners
        && !(c.channel in s.members && s.owners[d] in s.members[c.channel]);
      assert d in Recipients(c.deliveries);
    }
    if d :| d in Recipients(c.deliveries) && d in s.owners && s.owners[d] !in MembersOf(s, c.channel) {
      var i :| 0 <= i < |c.deliveries| && d in c.deliveries[i].devices;
    }
  }

  lemma MembersIff(s: Server, c: Submission)
    ensures AllMembers(s, c) <==>
              forall d | d in Recipients(c.deliveries) :: d in s.owners && s.owners[d] in MembersOf(s, c.channel)
  {
    if forall d | d in Recipients(c.deliveries) :: d in s.owners && s.owners[d] in MembersOf(s, c.channel) {
      forall i, d | 0 <= i < |c.deliveries| && d in c.deliveries[i].devices
        ensures d in s.owners && c.channel in s.members && s.owners[d] in s.members[c.channel]
      {
        assert d in Recipients(c.deliveries);
      }
    }
    if AllMembers(s, c) {
      forall d | d in Recipients(c.deliveries) ensures d in s.owners && s.owners[d] in MembersOf(s, c.channel) {
        var i :| 0 <= i < |c.deliveries| && d in c.deliveries[i].devices;
      }
    }
  }

  /** An accepted submission advances its group by its one commit and leaves exactly the rows it carries. */
  lemma SubmitStores(s: Server, c: Submission)
    requires Submit(s, c).1.Accepted?
    ensures var t := Submit(s, c).0;
            && t.members == s.members && t.owners == s.owners
            && c.channel in s.groups && c.epoch >= 0
            && t.groups == s.groups[c.channel := Group(c.epoch + 1, s.groups[c.channel].commits[c.epoch + 1 := c.message])]
            && forall x :: x in t.pending <==> x in s.pending || Carried(c, x)
  {
    var t := Submit(s, c).0;
    forall x ensures x in t.pending <==> x in s.pending || Carried(c, x) {
      if Carried(c, x) {
        var i :| 0 <= i < |c.deliveries| && x.device in c.deliveries[i].devices && x.blob == c.deliveries[i].welcome;
        assert x == Welcome(c.channel, c.epoch + 1, x.device, c.deliveries[i].welcome);
      }
    }
  }

  /** storage.CreateMlsGroup: one per channel, at epoch 0. */
  function CreateGroup(s: Server, ch: Channel): Server {
    if ch in s.groups then s else s.(groups := s.groups[ch := Group(0, map[])])
  }

  // ----- the commit log read

  ghost predicate IsLeastAfter(keys: set<nat>, after: nat, k: nat) {
    k in keys && k > after && forall j | j in keys && j > after :: k <= j
  }

  lemma {:induction false} LeastExists(keys: set<nat>, after: nat, some: nat)
    requires some in keys && some > after
    ensures exists k :: IsLeastAfter(keys, after, k)
    decreases some
  {
    if !IsLeastAfter(keys, after, some) {
      var j :| j in keys && j > after && j < some;
      LeastExists(keys, after, j);
    }
  }

  /** `WHERE epoch > after ORDER BY epoch LIMIT n`, over any commit table. */
  ghost function Select(commits: map<nat, Message>, after: nat, limit: nat): seq<(nat, Message)>
    decreases limit
  {
    if limit == 0 || !(exists k :: IsLeastAfter(commits.Keys, after, k)) then []
    else
      var k :| IsLeastAfter(commits.Keys, after, k);
      [(k, commits[k])] + Select(commits, k, limit - 1)
  }

  /** Exactly one commit for each epoch 1..E and none beyond. */
  ghost predicate Complete(g: Group) { forall e: nat :: e in g.commits <==> 1 <= e <= g.epoch }

  function Min(a: nat, b: nat): nat { if a < b then a else b }

  ghost function Run(g: Group, from: nat, to: nat): seq<(nat, Message)>
    requires Complete(g) && from <= to <= g.epoch
  {
    seq(to - from, i requires 0 <= i < to - from => (from + 1 + i, g.commits[from + 1 + i]))
  }

  /** A page of a complete log is the next epochs, without gap or repeat. */
  lemma {:induction false} SelectIsRun(g: Group, after: nat, limit: nat)
    requires Complete(g) && after <= g.epoch
    ensures Select(g.commits, after, limit) == Run(g, after, Min(g.epoch, after + limit))
    decreases limit
  {
    if limit > 0 && after < g.epoch {
      assert after + 1 in g.commits.Keys;
      assert IsLeastAfter(g.commits.Keys, after, after + 1);
      assert forall k | IsLeastAfter(g.commits.Keys, after, k) :: k == after + 1;
      SelectIsRun(g, after + 1, limit - 1);
    }
  }

  /** Fetching again and again from where the last page ended, until a page comes back empty. */
  ghost function CatchUp(g: Group, after: nat, limit: nat): seq<(nat, Message)>
    requires Complete(g) && after <= g.epoch && limit >= 1
    decreases g.epoch - after
  {
    var page := Select(g.commits, after, limit);
    SelectIsRun(g, after, limit);
    if page == [] then [] else page + CatchUp(g, page[|page| - 1].0, limit)
  }

  lemma RunJoins(g: Group, from: nat, mid: nat, to: nat)
    requires Complete(g) && from < mid <= to <= g.epoch
    ensures Run(g, from, to) == Run(g, from, mid) + Run(g, mid, to)
    ensures Run(g, from, mid) != [] && Run(g, from, mid)[mid - from - 1].0 == mid && |Run(g, from, mid)| == mid - from
  {
  }

  lemma NoEpochsLeft(g: Group)
    requires Complete(g)
    ensures Run(g, g.epoch, g.epoch) == []
  {
  }

  /** Repeated fetches reach the current epoch with every commit once, in order, for every page limit. */
  lemma {:induction false} CatchUpReachesEpoch(g: Group, after: nat, limit: nat)
    requires Complete(g) && after <= g.epoch && limit >= 1
    ensures CatchUp(g, after, limit) == Run(g, after, g.epoch)
    decreases g.epoch - after
  {
    hide Select;
    hide Run;
    hide Complete;
    SelectIsRun(g, after, limit);
    if after < g.epoch {
      var to := Min(g.epoch, after + limit);
      RunJoins(g, after, to, g.epoch);
      CatchUpReachesEpoch(g, to, limit);
    } else {
      NoEpochsLeft(g);
    }
  }

  // ----- the world: one server, many clients, every interleaving

  /**
   A client's copy of one channel: the epoch it joined at, what it applied since,
   and pages fetched earlier that may be stale by now.
   */
  datatype View = View(channel: Channel, joined: nat, applied: seq<Message>, pages: set<seq<(nat, Message)>>)

  /**
   `accepted` records which submissions won, `acked` which Welcomes were
   acknowledged, `dropped` which went away with their device, and `left` which
   devices ever left the directory.
   */
  datatype World = World(
    server: Server, views: map<Client, View>, accepted: seq<Submission>,
    acked: set<Welcome>, dropped: set<Welcome>, left: set<W.Device>)

  datatype Event =
    | CreateGroupEvent(channel: Channel)
    | SubmitEvent(submission: Submission)
    | JoinEvent(client: Client, channel: Channel)
    | WelcomedEvent(client: Client, welcome: Welcome)
    | FetchEvent(client: Client, after: nat, limit: nat)
    | ApplyEvent(client: Client, page: seq<(nat, Message)>)
    | AcknowledgeEvent(welcome: Welcome)
    | DirectoryEvent(members: map<Channel, set<User>>, owners: map<W.Device, User>)

  function GroupOf(s: Server, ch: Channel): Group { if ch in s.groups then s.groups[ch] else Group(0, map[]) }

  /** A client takes each fetched commit that is exactly its next epoch, in page order. */
  function ApplyAll(joined: nat, applied: seq<Message>, page: seq<(nat, Message)>): seq<Message>
    decreases |page|
  {
    if page == [] then applied
    else ApplyAll(joined, if page[0].0 == joined + |applied| + 1 then applied + [page[0].1] else applied, page[1..])
  }

  /** The pending Welcomes of devices a directory lists, which are the ones its foreign key lets stay. */
  function Addressed(pending: set<Welcome>, owners: map<W.Device, User>): set<Welcome> {
    set x | x in pending && x.device in owners
  }

  ghost function Next(w: World, e: Event): World {
    match e
    case CreateGroupEvent(ch) => w.(server := CreateGroup(w.server, ch))
    case SubmitEvent(c) =>
      var (s, outcome) := Submit(w.server, c);
      if outcome.Accepted? then w.(server := s, accepted := w.accepted + [c]) else w.(server := s)
    case JoinEvent(p, ch) => if p in w.views then w else w.(views := w.views[p := View(ch, 0, [], {})])
    case WelcomedEvent(p, x) =>
      // a Welcome fetched while it waited, whatever became of its row since
      if p in w.views || x !in w.server.pending + w.acked + w.dropped then w
      else w.(views := w.views[p := View(x.channel, x.epoch, [], {})])
    case FetchEvent(p, after, limit) =>
      if p !in w.views || limit < 1 || limit > MAX_PAGE then w
      else
        var v := w.views[p];
        var page := Select(GroupOf(w.server, v.channel).commits, after, limit);
        w.(views := w.views[p := v.(pages := v.pages + {page})])
    case ApplyEvent(p, page) =>
      if p !in w.views || page !in w.views[p].pages then w
      else
        var v := w.views[p];
        w.(views := w.views[p := v.(applied := ApplyAll(v.joined, v.applied, page))])
    case AcknowledgeEvent(x) =>
      if x !in w.server.pending then w
      else w.(server := w.server.(pending := w.server.pending - {x}), acked := w.acked + {x})
    case DirectoryEvent(members, owners) =>
      // deregistering a device deletes its waiting Welcomes with it
      var kept := Addressed(w.server.pending, owners);
      w.(server := w.server.(members := members, owners := owners, pending := kept),
         dropped := w.dropped + (w.server.pending - kept),
         left := w.left + (w.server.owners.Keys - owners.Keys))
  }

  ghost function Exec(w: World, es: seq<Event>): World
    decreases |es|
  {
    if es == [] then w else Next(Exec(w, es[..|es| - 1]), es[|es| - 1])
  }

  ghost predicate Initial(w: World) {
    w.server.groups == map[] && w.server.pending == {} && w.views == map[] && w.accepted == []
    && w.acked == {} && w.dropped == {} && w.left == {}
  }

  // ----- what every step keeps

  ghost predicate LogInv(s: Server) { forall ch | ch in s.groups :: Complete(s.groups[ch]) }

  /** An accepted submission is the commit of the epoch after the one it named. */
  ghost predicate Logged(s: Server, a: Submission) {
    && a.epoch >= 0 && a.channel in s.groups
    && a.epoch + 1 in s.groups[a.channel].commits && s.groups[a.channel].commits[a.epoch + 1] == a.message
  }

  ghost predicate Won(accepted: seq<Submission>, ch: Channel, e: int) {
    exists i | 0 <= i < |accepted| :: accepted[i].channel == ch && accepted[i].epoch == e
  }

  ghost predicate HistoryInv(s: Server, accepted: seq<Submission>) {
    && (forall i | 0 <= i < |accepted| :: Logged(s, accepted[i]))
    && (forall i, j | 0 <= i < j < |accepted| && accepted[i].channel == accepted[j].channel ::
          accepted[i].epoch < accepted[j].epoch)
    && forall ch, e | ch in s.groups && e in s.groups[ch].commits :: Won(accepted, ch, e - 1)
  }

  function AllIssued(accepted: seq<Submission>): set<Welcome> {
    set i, x | 0 <= i < |accepted| && x in Issued(accepted[i]) :: x
  }

  /**
   Every Welcome of an accepted commit is waiting, acknowledged or gone with its
   device, exactly one of these, and no other Welcome exists. A waiting one names a
   registered device; a dropped one a device that left the directory.
   */
  ghost predicate WelcomeInv(w: World) {
    && w.server.pending + w.acked + w.dropped == AllIssued(w.accepted)
    && w.server.pending !! w.acked && w.server.pending !! w.dropped && w.acked !! w.dropped
    && (forall x | x in w.server.pending :: x.device in w.server.owners)
    && forall x | x in w.dropped :: x.device in w.left
  }

  /** The commits of the epochs right after `joined`, without a gap. */
  ghost predicate IsRun(joined: nat, applied: seq<Message>, g: Group) {
    && joined + |applied| <= g.epoch
    && forall e: nat | joined < e <= joined + |applied| :: e in g.commits && g.commits[e] == applied[e - joined - 1]
  }

  ghost predicate Honest(page: seq<(nat, Message)>, g: Group) {
    forall i | 0 <= i < |page| :: page[i].0 in g.commits && g.commits[page[i].0] == page[i].1
  }

  ghost predicate ViewInv(s: Server, v: View) {
    IsRun(v.joined, v.applied, GroupOf(s, v.channel)) && forall p | p in v.pages :: Honest(p, GroupOf(s, v.channel))
  }

  ghost predicate Inv(w: World) {
    && LogInv(w.server) && HistoryInv(w.server, w.accepted) && WelcomeInv(w)
    && forall p | p in w.views :: ViewInv(w.server, w.views[p])
  }

  /** A log only ever grows at its end. */
  ghost predicate Extends(g: Group, h: Group) {
    g.epoch <= h.epoch && forall e | e in g.commits :: e in h.commits && h.commits[e] == g.commits[e]
  }

  ghost predicate ServerExtends(s: Server, t: Server) {
    && (forall ch | ch in s.groups :: ch in t.groups)
    && forall ch {:trigger GroupOf(s, ch)} {:trigger GroupOf(t, ch)} :: Extends(GroupOf(s, ch), GroupOf(t, ch))
  }

  lemma StepExtends(w: World, e: Event)
    requires LogInv(w.server)
    ensures ServerExtends(w.server, Next(w, e).server) && LogInv(Next(w, e).server)
  {
    hide Select;
    hide Issued;
    hide Recipients;
  }

  lemma ViewKept(s: Server, t: Server, v: View)
    requires ServerExtends(s, t) && ViewInv(s, v)
    ensures ViewInv(t, v)
  {
    var g, h := GroupOf(s, v.channel), GroupOf(t, v.channel);
    assert Extends(g, h);
    forall e: nat | v.joined < e <= v.joined + |v.applied| ensures e in h.commits && h.commits[e] == v.applied[e - v.joined - 1] {
      assert e in g.commits;
    }
    forall p | p in v.pages ensures Honest(p, h) {
      assert Honest(p, g);
    }
  }

  lemma {:induction false} ApplyKeepsRun(joined: nat, applied: seq<Message>, page: seq<(nat, Message)>, g: Group)
    requires IsRun(joined, applied, g) && Honest(page, g) && Complete(g)
    ensures IsRun(joined, ApplyAll(joined, applied, page), g)
    decreases |page|
  {
    if page != [] {
      assert page[0].0 in g.commits;
      ApplyKeepsRun(joined, if page[0].0 == joined + |applied| + 1 then applied + [page[0].1] else applied, page[1..], g);
    }
  }

  lemma {:induction false} SelectIsHonest(commits: map<nat, Message>, after: nat, limit: nat)
    ensures forall i | 0 <= i < |Select(commits, after, limit)| ::
              var (e, m) := Select(commits, after, limit)[i]; e in commits && commits[e] == m
    decreases limit
  {
    if limit > 0 && exists k :: IsLeastAfter(commits.Keys, after, k) {
      var k :| IsLeastAfter(commits.Keys, after, k) && Select(commits, after, limit) == [(k, commits[k])] + Select(commits, k, limit - 1);
      SelectIsHonest(commits, k, limit - 1);
    }
  }

  /** The view a step gives a client, where it is not the one it had. */
  ghost predicate NewView(w: World, e: Event, p: Client, v: View) {
    || (e == JoinEvent(p, v.channel) && v == View(v.channel, 0, [], {}))
    || (e.WelcomedEvent? && e.welcome in w.server.pending + w.acked + w.dropped && v == View(e.welcome.channel, e.welcome.epoch, [], {}))
    || (e.FetchEvent? && p in w.views && v == w.views[p].(pages := w.views[p].pages +
                                                 {Select(GroupOf(w.server, w.views[p].channel).commits, e.after, e.limit)}))
    || (e.ApplyEvent? && p in w.views && e.page in w.views[p].pages
        && v == w.views[p].(applied := ApplyAll(w.views[p].joined, w.views[p].applied, e.page)))
  }

  lemma ViewsOf(w: World, e: Event, p: Client)
    requires p in Next(w, e).views
    ensures (p in w.views && Next(w, e).views[p] == w.views[p]) || NewView(w, e, p, Next(w, e).views[p])
  {
    hide Submit;
    hide CreateGroup;
    hide Select;
    hide ApplyAll;
  }

  lemma NewViewKept(w: World, e: Event, p: Client, v: View)
    requires Inv(w) && NewView(w, e, p, v)
    ensures ViewInv(w.server, v)
  {
    hide Select;
    hide ApplyAll;
    hide AllIssued;
    hide HistoryInv;
    if e.WelcomedEvent? {
      IssuedWithin(w, e.welcome);
    } else if p in w.views {
      var g := GroupOf(w.server, w.views[p].channel);
      assert ViewInv(w.server, w.views[p]);
      if e.FetchEvent? { SelectIsHonest(g.commits, e.after, e.limit); }
      if e.ApplyEvent? { ApplyKeepsRun(w.views[p].joined, w.views[p].applied, e.page, g); }
    }
  }

  lemma ViewsKept(w: World, e: Event)
    requires Inv(w)
    ensures forall p | p in Next(w, e).views :: ViewInv(Next(w, e).server, Next(w, e).views[p])
  {
    hide Next;
    hide NewView;
    hide ViewInv;
    StepExtends(w, e);
    forall p | p in Next(w, e).views ensures ViewInv(Next(w, e).server, Next(w, e).views[p]) {
      var v := Next(w, e).views[p];
      ViewsOf(w, e, p);
      if NewView(w, e, p, v) { NewViewKept(w, e, p, v); }
      ViewKept(w.server, Next(w, e).server, v);
    }
  }

  lemma LoggedKept(s: Server, t: Server, a: Submission)
    requires ServerExtends(s, t) && Logged(s, a)
    ensures Logged(t, a)
  {
    assert Extends(GroupOf(s, a.channel), GroupOf(t, a.channel));
  }

  lemma EpochsIncrease(w: World, c: Submission)
    requires Inv(w) && Submit(w.server, c).1.Accepted?
    ensures forall i | 0 <= i < |w.accepted| && w.accepted[i].channel == c.channel :: w.accepted[i].epoch < c.epoch
  {
    hide Issued;
    hide Recipients;
    forall i | 0 <= i < |w.accepted| && w.accepted[i].channel == c.channel ensures w.accepted[i].epoch < c.epoch {
      assert Logged(w.server, w.accepted[i]);
    }
  }

  lemma WonSnoc(accepted: seq<Submission>, c: Submission)
    ensures Won(accepted + [c], c.channel, c.epoch)
    ensures forall ch, e | Won(accepted, ch, e) :: Won(accepted + [c], ch, e)
  {
    var more := accepted + [c];
    assert more[|accepted|] == c;
    forall ch, e | Won(accepted, ch, e) ensures Won(more, ch, e) {
      var i :| 0 <= i < |accepted| && accepted[i].channel == ch && accepted[i].epoch == e;
      assert more[i] == accepted[i];
    }
  }

  /** A submission storage accepts extends the history by one more epoch of its channel. */
  lemma HistoryGrows(w: World, c: Submission)
    requires Inv(w) && Submit(w.server, c).1.Accepted?
    ensures HistoryInv(Submit(w.server, c).0, w.accepted + [c])
  {
    hide Issued;
    hide Recipients;
    hide Won;
    var t, more := Submit(w.server, c).0, w.accepted + [c];
    StepExtends(w, SubmitEvent(c));
    forall i | 0 <= i < |w.accepted| ensures Logged(t, w.accepted[i]) { LoggedKept(w.server, t, w.accepted[i]); }
    EpochsIncrease(w, c);
    WonSnoc(w.accepted, c);
  }

  lemma HistoryKept(w: World, e: Event)
    requires Inv(w)
    ensures HistoryInv(Next(w, e).server, Next(w, e).accepted)
  {
    if e.SubmitEvent? && Submit(w.server, e.submission).1.Accepted? {
      HistoryGrows(w, e.submission);
    } else {
      SameHistory(w, e);
    }
  }

  lemma SameHistory(w: World, e: Event)
    requires Inv(w) && !(e.SubmitEvent? && Submit(w.server, e.submission).1.Accepted?)
    ensures HistoryInv(Next(w, e).server, Next(w, e).accepted)
  {
    hide Won;
    hide Issued;
    hide Recipients;
    hide Select;
    var v := Next(w, e);
    assert v.accepted == w.accepted;
    forall i | 0 <= i < |w.accepted| ensures Logged(v.server, w.accepted[i]) {
      assert Logged(w.server, w.accepted[i]);
    }
  }

  /** Issued Welcomes carry an epoch their channel's log has reached. */
  lemma IssuedWithin(w: World, x: Welcome)
    requires Inv(w) && x in AllIssued(w.accepted)
    ensures x.channel in w.server.groups && x.epoch <= w.server.groups[x.channel].epoch
  {
    var i :| 0 <= i < |w.accepted| && x in Issued(w.accepted[i]);
    assert Logged(w.server, w.accepted[i]);
  }

  lemma IssuedSnoc(accepted: seq<Submission>, c: Submission)
    ensures AllIssued(accepted + [c]) == AllIssued(accepted) + Issued(c)
  {
    hide Issued;
    var more := accepted + [c];
    forall x ensures x in AllIssued(more) <==> x in AllIssued(accepted) || x in Issued(c) {
      if x in AllIssued(accepted) {
        var i :| 0 <= i < |accepted| && x in Issued(accepted[i]);
        assert more[i] == accepted[i];
      }
      if x in Issued(c) { assert more[|accepted|] == c; }
    }
  }

  lemma WelcomesKept(w: World, e: Event)
    requires Inv(w)
    ensures WelcomeInv(Next(w, e))
  {
    hide AllIssued;
    hide Issued;
    hide Recipients;
    hide Select;
    if e.SubmitEvent? && Submit(w.server, e.submission).1.Accepted? {
      IssuedSnoc(w.accepted, e.submission);
      IssuedIsNew(w, e.submission);
    }
  }

  /** The Welcomes of an accepted submission are to registered devices and none of them existed before. */
  lemma IssuedIsNew(w: World, c: Submission)
    requires Inv(w) && Submit(w.server, c).1.Accepted?
    ensures Issued(c) !! AllIssued(w.accepted)
    ensures forall x | x in Issued(c) :: x.device in w.server.owners
  {
    hide AllIssued;
    forall x | x in Issued(c) ensures x !in AllIssued(w.accepted) && x.device in w.server.owners {
      assert x.device in Recipients(c.deliveries);
      if x in AllIssued(w.accepted) { IssuedWithin(w, x); }
    }
  }

  /** A waiting Welcome stays until it is acknowledged or its device leaves the directory, and is recorded then. */
  lemma WelcomeWaits(w: World, e: Event, x: Welcome)
    requires Inv(w) && x in w.server.pending
    ensures var v := Next(w, e);
            || x in v.server.pending
            || (e == AcknowledgeEvent(x) && x in v.acked)
            || (e.DirectoryEvent? && x.device in w.server.owners && x.device !in e.owners && x in v.dropped)
  {
    hide Issued;
    hide Recipients;
    hide Select;
    hide AllIssued;
  }

  /** Every step of every party keeps the invariant. */
  lemma StepKeepsInv(w: World, e: Event)
    requires Inv(w)
    ensures Inv(Next(w, e))
  {
    hide Next;
    StepExtends(w, e);
    ViewsKept(w, e);
    HistoryKept(w, e);
    WelcomesKept(w, e);
  }

  /** The delivery service's promises hold in every state of every run. */
  lemma {:induction false} RunsKeepInv(w: World, es: seq<Event>)
    requires Initial(w)
    ensures Inv(Exec(w, es))
    decreases |es|
  {
    hide Next;
    if es != [] {
      RunsKeepInv(w, es[..|es| - 1]);
      StepKeepsInv(Exec(w, es[..|es| - 1]), es[|es| - 1]);
    }
  }

  /** The commit a client holds for an epoch, if it does. */
  function HeldAt(v: View, e: nat): Option<Message> {
    if v.joined < e <= v.joined + |v.applied| then Some(v.applied[e - v.joined - 1]) else None
  }

  /**
   In every run, every client holds the contiguous run of the log after the epoch
   it joined at, and any two clients of a channel agree on every epoch both hold.
   */
  lemma ClientsAgree(w: World, es: seq<Event>, p: Client, q: Client)
    requires Initial(w)
    requires var v := Exec(w, es).views; p in v && q in v && v[p].channel == v[q].channel
    ensures var v, s := Exec(w, es).views, Exec(w, es).server;
            && IsRun(v[p].joined, v[p].applied, GroupOf(s, v[p].channel))
            && (forall e: nat | HeldAt(v[p], e).Some? && HeldAt(v[q], e).Some? :: HeldAt(v[p], e) == HeldAt(v[q], e))
            && (v[p].joined == v[q].joined ==> v[p].applied <= v[q].applied || v[q].applied <= v[p].applied)
  {
    hide Exec;
    RunsKeepInv(w, es);
    var end := Exec(w, es);
    assert ViewInv(end.server, end.views[p]) && ViewInv(end.server, end.views[q]);
    RunsAgree(end.views[p], end.views[q], GroupOf(end.server, end.views[p].channel));
  }

  lemma RunsAgree(v: View, u: View, g: Group)
    requires IsRun(v.joined, v.applied, g) && IsRun(u.joined, u.applied, g)
    ensures forall e: nat | HeldAt(v, e).Some? && HeldAt(u, e).Some? :: HeldAt(v, e) == HeldAt(u, e)
    ensures v.joined == u.joined ==> v.applied <= u.applied || u.applied <= v.applied
  {
    forall e: nat | HeldAt(v, e).Some? && HeldAt(u, e).Some? ensures HeldAt(v, e) == HeldAt(u, e) {
      assert e in g.commits;
    }
    if v.joined == u.joined {
      forall k | 0 <= k < |v.applied| && k < |u.applied| ensures v.applied[k] == u.applied[k] {
        assert v.joined + k + 1 in g.commits;
      }
    }
  }

  lemma {:induction false} RunExtends(w: World, es: seq<Event>, n: nat)
    requires Initial(w) && n <= |es|
    ensures ServerExtends(Exec(w, es[..n]).server, Exec(w, es).server)
    decreases |es|
  {
    hide Next;
    if n == |es| {
      assert es[..n] == es;
    } else {
      var front := es[..|es| - 1];
      assert front[..n] == es[..n];
      RunExtends(w, front, n);
      RunsKeepInv(w, front);
      StepExtends(Exec(w, front), es[|es| - 1]);
      ExtendsTransitive(Exec(w, es[..n]).server, Exec(w, front).server, Exec(w, es).server);
    }
  }

  lemma ExtendsTransitive(s: Server, t: Server, u: Server)
    requires ServerExtends(s, t) && ServerExtends(t, u)
    ensures ServerExtends(s, u)
  {
    forall ch ensures Extends(GroupOf(s, ch), GroupOf(u, ch)) {
      assert Extends(GroupOf(s, ch), GroupOf(t, ch)) && Extends(GroupOf(t, ch), GroupOf(u, ch));
    }
  }

  /** Whether the n-th event of a run is a submission that storage accepted. */
  ghost predicate Wins(w: World, es: seq<Event>, n: nat)
    requires n < |es|
  {
    es[n].SubmitEvent? && Submit(Exec(w, es[..n]).server, es[n].submission).1.Accepted?
  }

  /** Of all the submissions of a run that name one epoch of one channel, at most one ever wins. */
  lemma OneWinnerPerEpoch(w: World, es: seq<Event>, m: nat, n: nat)
    requires Initial(w) && m < n < |es| && Wins(w, es, m) && Wins(w, es, n)
    requires es[m].submission.channel == es[n].submission.channel
    ensures es[m].submission.epoch < es[n].submission.epoch
  {
    hide Issued;
    hide Recipients;
    hide Select;
    var ch := es[m].submission.channel;
    var before, after, later := Exec(w, es[..m]), Exec(w, es[..m + 1]), Exec(w, es[..n]);
    assert es[..m + 1][..m] == es[..m];
    assert after == Next(before, es[m]);
    assert es[..n][..m + 1] == es[..m + 1];
    RunExtends(w, es[..n], m + 1);
    assert Extends(GroupOf(after.server, ch), GroupOf(later.server, ch));
  }

  /**
   In every run, a Welcome starts waiting only through an accepted submission that
   carries it, and only for a device that is then registered to a member of the
   Welcome's channel.
   */
  lemma WelcomesAreForMembers(w: World, es: seq<Event>, n: nat, x: Welcome)
    requires n < |es| && x in Exec(w, es[..n + 1]).server.pending && x !in Exec(w, es[..n]).server.pending
    ensures Wins(w, es, n) && Carried(es[n].submission, x)
    ensures var s := Exec(w, es[..n]).server;
            x.device in s.owners && x.channel in s.members && s.owners[x.device] in s.members[x.channel]
  {
    hide Select;
    hide Submit;
    assert es[..n + 1][..n] == es[..n];
    var v := Exec(w, es[..n]);
    assert Exec(w, es[..n + 1]) == Next(v, es[n]);
    assert es[n].SubmitEvent?;
    SubmitAnswers(v.server, es[n].submission);
    SubmitStores(v.server, es[n].submission);
  }

  /** The deliveries commitWelcomes makes of an acceptable request. */
  ghost predicate Carries(deliveries: seq<W.Delivery>, requests: seq<W.Request>) {
    |deliveries| == |requests| && forall i | 0 <= i < |requests| :: deliveries[i].devices == requests[i].devices
  }

  lemma DevicePosition(requests: seq<W.Request>, i: nat, k: nat) returns (p: nat)
    requires i < |requests| && k < |requests[i].devices|
    ensures |W.AllDevices(requests[..i])| <= p < |W.AllDevices(requests[..i + 1])| <= |W.AllDevices(requests)|
    ensures W.AllDevices(requests)[p] == requests[i].devices[k]
  {
    assert requests[..i + 1][..i] == requests[..i];
    W.DevicesPrefix(requests, i + 1);
    p := |W.AllDevices(requests[..i])| + k;
  }

  /** Because devices are distinct across the whole request, no device is left a queue of two Welcomes. */
  lemma OneWelcomePerDevice(decode: W.Base64, requests: seq<W.Request>, c: Submission, x: Welcome, y: Welcome)
    requires W.Acceptable(decode, requests) && Carries(c.deliveries, requests)
    requires x in Issued(c) && y in Issued(c) && x.device == y.device
    ensures x == y
  {
    var i, d :| 0 <= i < |c.deliveries| && d in c.deliveries[i].devices
      && x == Welcome(c.channel, if c.epoch < 0 then 0 else c.epoch + 1, d, c.deliveries[i].welcome);
    var j, e :| 0 <= j < |c.deliveries| && e in c.deliveries[j].devices
      && y == Welcome(c.channel, if c.epoch < 0 then 0 else c.epoch + 1, e, c.deliveries[j].welcome);
    if i != j {
      var k :| 0 <= k < |requests[i].devices| && requests[i].devices[k] == d;
      var l :| 0 <= l < |requests[j].devices| && requests[j].devices[l] == d;
      if i < j { OffsetsGrow(requests, i, j); } else { OffsetsGrow(requests, j, i); }
      var p := DevicePosition(requests, i, k);
      var q := DevicePosition(requests, j, l);
    }
  }

  lemma OffsetsGrow(requests: seq<W.Request>, i: nat, j: nat)
    requires i < j < |requests|
    ensures |W.AllDevices(requests[..i + 1])| <= |W.AllDevices(requests[..j])|
  {
    assert requests[..j][..i + 1] == requests[..i + 1];
    W.DevicesPrefix(requests[..j], i + 1);
  }
}
