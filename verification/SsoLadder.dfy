/**
 The resolution ladder of a single callback (completeOidcLogin and below in
 server/internal/httpserver/oidc_handlers.go): what it comes to when nothing else
 happens between its steps, rung by rung, and the one race in which a session is
 minted for an account that was never linked and active at once.
 */
module SsoLadder {
  import opened Bytes
  import opened Sso

  type Derive = (string, nat) -> string

  /** The call makes one store call after another, with these choices. */
  ghost function Go(derive: Derive, v: System, id: CallId, picks: seq<Choice>): System
    decreases |picks|
  {
    if picks == [] then v else Go(derive, Next(derive, v, Run(id, picks[0])), id, picks[1..])
  }

  ghost predicate Ready(v: System, id: CallId, picks: seq<Choice>) {
    id in v.calls && forall i | 0 <= i < |picks| :: picks[i].newUser !in v.db.users
  }

  /** The callback came with no link intent of its own. */
  predicate NoIntent(db: Db, stage: Stage) {
    stage.Arrived? && !(stage.state in db.pending && db.pending[stage.state].0 == stage.secret && db.pending[stage.state].1 in db.owner)
  }

  ghost predicate Unlinked(db: Db, ident: Identity) { forall u :: !LinkedTo(db, u, ident) }

  /** u is the one account with this email. */
  ghost predicate OnlyEmail(db: Db, u: Uid, email: string) { HasEmail(db, u, email) && forall x | HasEmail(db, x, email) :: x == u }

  function StageOf(v: System, id: CallId): Stage
    requires id in v.calls
  {
    v.calls[id].stage
  }

  /** The system with call `id` moved on, and nothing else changed. */
  function Moved(v: System, id: CallId, stage: Stage): (end: System)
    requires id in v.calls
    ensures end.calls == v.calls[id := Call(v.calls[id].claims, stage)]
    ensures end.db == v.db && end.sessions == v.sessions && end.births == v.births
  {
    v.(calls := v.calls[id := v.calls[id].(stage := stage)])
  }

  /** The call has come to its end, with a session if one was due. */
  function Ended(v: System, id: CallId, u: Uid, mint: bool): (end: System)
    requires id in v.calls
  {
    Moved(v, id, Finished).(sessions := v.sessions + if mint then {Session(id, u)} else {})
  }

  lemma MovedAgain(v: System, id: CallId, first: Stage, second: Stage, u: Uid, mint: bool)
    requires id in v.calls
    ensures Moved(Moved(v, id, first), id, second) == Moved(v, id, second)
    ensures Ended(Moved(v, id, first), id, u, mint) == Ended(v, id, u, mint)
  {
    var a, b := Moved(v, id, first).calls, v.calls;
    assert a[id := Call(b[id].claims, second)] == b[id := Call(b[id].claims, second)];
    assert a[id := Call(b[id].claims, Finished)] == b[id := Call(b[id].claims, Finished)];
  }

  lemma GoOn(derive: Derive, v: System, id: CallId, pick: Choice, rest: seq<Choice>)
    ensures Go(derive, v, id, [pick] + rest) == Go(derive, Next(derive, v, Run(id, pick)), id, rest)
  {
    hide Next;
    assert ([pick] + rest)[0] == pick && ([pick] + rest)[1..] == rest;
  }

  // ----- single steps

  lemma ReadMoves(derive: Derive, v: System, id: CallId, pick: Choice)
    requires id in v.calls && pick.newUser !in v.db.users && OnlyReads(StageOf(v, id)) && !StageOf(v, id).SigningIn?
    ensures Next(derive, v, Run(id, pick)) == Moved(v, id, Advance(derive, v.db, id, v.calls[id], pick).stage)
  {
    hide ByIdentity;
    hide ByEmail;
  }

  lemma FoundByIdentity(db: Db, u: Uid, ident: Identity)
    requires OneAccount(db) && LinkedTo(db, u, ident)
    ensures ByIdentity(db, ident) == Some(u)
  {
  }

  lemma FoundByEmail(db: Db, u: Uid, email: string)
    requires OnlyEmail(db, u, email)
    ensures ByEmail(db, email) == Some(u)
  {
  }

  lemma ArrivalLooks(derive: Derive, v: System, id: CallId, pick: Choice)
    requires id in v.calls && pick.newUser !in v.db.users && NoIntent(v.db, StageOf(v, id))
    ensures Next(derive, v, Run(id, pick)) == Moved(v, id, Looking)
  {
    hide ByIdentity;
    hide ByEmail;
  }

  /** The last step: a session for an active account that is not challenged, and nothing otherwise. */
  lemma SigningInMints(derive: Derive, v: System, id: CallId, pick: Choice)
    requires id in v.calls && pick.newUser !in v.db.users && StageOf(v, id).SigningIn?
    ensures Next(derive, v, Run(id, pick)) ==
              Ended(v, id, StageOf(v, id).user, StageOf(v, id).active && !pick.challenged)
  {
    hide ByIdentity;
    hide ByEmail;
  }

  lemma MintsAtTheEnd(derive: Derive, v: System, id: CallId, u: Uid, active: bool, pick: Choice)
    requires id in v.calls && pick.newUser !in v.db.users
    ensures Go(derive, Moved(v, id, SigningIn(u, active)), id, [pick]) == Ended(v, id, u, active && !pick.challenged)
  {
    hide Next;
    hide Moved;
    hide Ended;
    var a := Moved(v, id, SigningIn(u, active));
    SigningInMints(derive, a, id, pick);
    MovedAgain(v, id, SigningIn(u, active), Finished, u, active && !pick.challenged);
    assert [pick] == [pick] + [];
    GoOn(derive, a, id, pick, []);
  }

  // ----- rung 1

  /** A linked identity signs in exactly when its account is active and not challenged, and changes nothing else. */
  lemma LinkedSignsIn(derive: Derive, v: System, id: CallId, u: Uid, p: Choice, q: Choice, r: Choice)
    requires Ready(v, id, [p, q, r]) && NoIntent(v.db, StageOf(v, id))
    requires OneAccount(v.db) && LinkedTo(v.db, u, v.calls[id].claims.ident)
    ensures Go(derive, v, id, [p, q, r]) == Ended(v, id, u, IsActive(v.db, u) && !r.challenged)
  {
    hide Next;
    hide Moved;
    hide Ended;
    hide LinkedTo;
    hide OneAccount;
    assert p == [p, q, r][0] && q == [p, q, r][1] && r == [p, q, r][2];
    assert [p, q, r] == [p] + [q, r] && [q, r] == [q] + [r];
    Looks(derive, v, id, p, [q, r]);
    LookingFinds(derive, Moved(v, id, Looking), id, u, q);
    GoOn(derive, Moved(v, id, Looking), id, q, [r]);
    MovedAgain(v, id, Looking, SigningIn(u, IsActive(v.db, u)), u, true);
    MintsAtTheEnd(derive, v, id, u, IsActive(v.db, u), r);
  }

  lemma Looks(derive: Derive, v: System, id: CallId, pick: Choice, rest: seq<Choice>)
    requires id in v.calls && pick.newUser !in v.db.users && NoIntent(v.db, StageOf(v, id))
    ensures Go(derive, v, id, [pick] + rest) == Go(derive, Moved(v, id, Looking), id, rest)
  {
    hide Next;
    ArrivalLooks(derive, v, id, pick);
    GoOn(derive, v, id, pick, rest);
  }

  lemma LookingFinds(derive: Derive, v: System, id: CallId, u: Uid, pick: Choice)
    requires id in v.calls && pick.newUser !in v.db.users && StageOf(v, id).Looking?
    requires OneAccount(v.db) && LinkedTo(v.db, u, v.calls[id].claims.ident)
    ensures Next(derive, v, Run(id, pick)) == Moved(v, id, SigningIn(u, IsActive(v.db, u)))
  {
    hide ByIdentity;
    hide ByEmail;
    FoundByIdentity(v.db, u, v.calls[id].claims.ident);
  }

  // ----- rungs 2 and 3

  lemma LookingMisses(derive: Derive, v: System, id: CallId, pick: Choice)
    requires id in v.calls && pick.newUser !in v.db.users && StageOf(v, id).Looking? && Unlinked(v.db, v.calls[id].claims.ident)
    ensures Next(derive, v, Run(id, pick)) == Moved(v, id, if v.calls[id].claims.email != "" then Emailing else Deciding)
  {
    hide ByEmail;
    assert ByIdentity(v.db, v.calls[id].claims.ident) == None;
  }

  /** The one case in which an email attaches an identity. */
  predicate Adoptable(db: Db, c: Claims, u: Uid) { u in db.users && db.users[u].directory && c.verified && db.users[u].active }

  lemma EmailingFinds(derive: Derive, v: System, id: CallId, u: Uid, pick: Choice)
    requires id in v.calls && pick.newUser !in v.db.users && StageOf(v, id).Emailing? && OnlyEmail(v.db, u, v.calls[id].claims.email)
    ensures Next(derive, v, Run(id, pick)) == Moved(v, id, if Adoptable(v.db, v.calls[id].claims, u) then Adopting(u) else Finished)
  {
    hide ByIdentity;
    hide ByEmail;
    FoundByEmail(v.db, u, v.calls[id].claims.email);
  }

  function WithLink(v: System, u: Uid, ident: Identity): System { v.(db := v.db.(links := v.db.links[u := ident])) }

  lemma AdoptingLinks(derive: Derive, v: System, id: CallId, u: Uid, pick: Choice)
    requires id in v.calls && pick.newUser !in v.db.users && StageOf(v, id) == Adopting(u)
    requires u in v.db.users && u !in v.db.links && Unlinked(v.db, v.calls[id].claims.ident)
    ensures Next(derive, v, Run(id, pick)) == Moved(WithLink(v, u, v.calls[id].claims.ident), id, SigningIn(u, true))
  {
    hide ByEmail;
    assert ByIdentity(v.db, v.calls[id].claims.ident) == None;
  }

  lemma LinkCommutes(v: System, id: CallId, u: Uid, ident: Identity, stage: Stage, last: Stage)
    requires id in v.calls
    ensures Moved(WithLink(Moved(v, id, stage), u, ident), id, last) == Moved(WithLink(v, u, ident), id, last)
  {
    var b := v.calls;
    assert b[id := Call(b[id].claims, stage)][id := Call(b[id].claims, last)] == b[id := Call(b[id].claims, last)];
  }

  /** An unlinked identity whose email names one account comes as far as the decision about it. */
  lemma ReachesEmail(derive: Derive, v: System, id: CallId, u: Uid, p: Choice, q: Choice, r: Choice, rest: seq<Choice>)
    requires Ready(v, id, [p, q, r]) && NoIntent(v.db, StageOf(v, id)) && Unlinked(v.db, v.calls[id].claims.ident)
    requires v.calls[id].claims.email != "" && OnlyEmail(v.db, u, v.calls[id].claims.email)
    ensures Go(derive, v, id, [p] + ([q] + ([r] + rest))) ==
              Go(derive, Moved(v, id, if Adoptable(v.db, v.calls[id].claims, u) then Adopting(u) else Finished), id, rest)
  {
    hide Next;
    hide Moved;
    hide Unlinked;
    hide OnlyEmail;
    assert p == [p, q, r][0] && q == [p, q, r][1] && r == [p, q, r][2];
    var a, b := Moved(v, id, Looking), Moved(v, id, Emailing);
    Looks(derive, v, id, p, [q] + ([r] + rest));
    LookingMisses(derive, a, id, q);
    MovedAgain(v, id, Looking, Emailing, u, true);
    GoOn(derive, a, id, q, [r] + rest);
    EmailingFinds(derive, b, id, u, r);
    MovedAgain(v, id, Emailing, if Adoptable(v.db, v.calls[id].claims, u) then Adopting(u) else Finished, u, true);
    GoOn(derive, b, id, r, rest);
  }

  /** Rung 2: a verified email of a directory-managed active account without a link adopts it and signs in. */
  lemma VerifiedEmailAdopts(derive: Derive, v: System, id: CallId, u: Uid, p: Choice, q: Choice, r: Choice, s: Choice, t: Choice)
    requires Ready(v, id, [p, q, r, s, t]) && NoIntent(v.db, StageOf(v, id)) && Unlinked(v.db, v.calls[id].claims.ident)
    requires v.calls[id].claims.email != "" && OnlyEmail(v.db, u, v.calls[id].claims.email)
    requires Adoptable(v.db, v.calls[id].claims, u) && u !in v.db.links
    ensures Go(derive, v, id, [p, q, r, s, t]) == Ended(WithLink(v, u, v.calls[id].claims.ident), id, u, !t.challenged)
  {
    hide Next;
    hide Moved;
    hide Ended;
    hide Unlinked;
    hide OnlyEmail;
    var all, ident := [p, q, r, s, t], v.calls[id].claims.ident;
    assert all[0] == p && all[1] == q && all[2] == r && all[3] == s && all[4] == t;
    assert [p, q, r][0] == p && [p, q, r][1] == q && [p, q, r][2] == r;
    assert all == [p] + ([q] + ([r] + [s, t])) && [s, t] == [s] + [t];
    ReachesEmail(derive, v, id, u, p, q, r, [s, t]);
    var a := Moved(v, id, Adopting(u));
    AdoptingLinks(derive, a, id, u, s);
    GoOn(derive, a, id, s, [t]);
    LinkCommutes(v, id, u, ident, Adopting(u), SigningIn(u, true));
    MintsAtTheEnd(derive, WithLink(v, u, ident), id, u, true, t);
  }

  /** Rung 3: any other account of that email is left alone, and nobody is signed in. */
  lemma OtherEmailIsRefused(derive: Derive, v: System, id: CallId, u: Uid, p: Choice, q: Choice, r: Choice)
    requires Ready(v, id, [p, q, r]) && NoIntent(v.db, StageOf(v, id)) && Unlinked(v.db, v.calls[id].claims.ident)
    requires v.calls[id].claims.email != "" && OnlyEmail(v.db, u, v.calls[id].claims.email)
    requires !Adoptable(v.db, v.calls[id].claims, u)
    ensures Go(derive, v, id, [p, q, r]) == Moved(v, id, Finished)
  {
    assert [p, q, r] == [p] + ([q] + ([r] + []));
    ReachesEmail(derive, v, id, u, p, q, r, []);
  }

  // ----- rungs 4 and 5

  predicate NameTaken(db: Db, name: string) { exists x | x in db.users :: db.users[x].username == name }

  ghost predicate EmailFree(db: Db, email: string) { forall x :: !HasEmail(db, x, email) }

  function NameSource(c: Claims): string { if c.email == "" then c.ident.1 else c.email }

  /** With provisioning off nothing is made. */
  lemma SwitchedOffRefuses(derive: Derive, v: System, id: CallId, pick: Choice)
    requires id in v.calls && pick.newUser !in v.db.users && StageOf(v, id).Deciding?
    ensures Next(derive, v, Run(id, pick)) == Moved(v, id, if v.db.provisioning then Provisioning(0) else Finished)
  {
    hide ByIdentity;
    hide ByEmail;
  }

  /** The account a call makes: the derived name, the claimed email, no directory id, active, linked to the identity. */
  function WithAccount(v: System, id: CallId, u: Uid, c: Claims, name: string): System {
    v.(db := v.db.(users := v.db.users[u := User(name, if c.email == "" then None else Some(c.email), false, true)],
                   links := v.db.links[u := c.ident]),
       births := v.births + [Birth(id, u)])
  }

  lemma TakenNameRetries(derive: Derive, v: System, id: CallId, pick: Choice, attempt: nat)
    requires id in v.calls && pick.newUser !in v.db.users && StageOf(v, id) == Provisioning(attempt)
    requires NameTaken(v.db, derive(NameSource(v.calls[id].claims), attempt))
    ensures Next(derive, v, Run(id, pick)) == Moved(v, id, if attempt + 1 < 20 then Provisioning(attempt + 1) else Finished)
  {
    hide ByIdentity;
    hide ByEmail;
  }

  lemma FreeNameProvisions(derive: Derive, v: System, id: CallId, pick: Choice, attempt: nat)
    requires id in v.calls && pick.newUser !in v.db.users && StageOf(v, id) == Provisioning(attempt)
    requires var c := v.calls[id].claims;
             !NameTaken(v.db, derive(NameSource(c), attempt)) && (c.email != "" ==> EmailFree(v.db, c.email)) && Unlinked(v.db, c.ident)
    ensures Next(derive, v, Run(id, pick)) ==
              Moved(WithAccount(v, id, pick.newUser, v.calls[id].claims, derive(NameSource(v.calls[id].claims), attempt)), id, SigningIn(pick.newUser, true))
  {
    var c := v.calls[id].claims;
    assert ByIdentity(v.db, c.ident) == None;
    if c.email != "" { assert ByEmail(v.db, c.email) == None; }
  }

  /** The k-th derived name is held by somebody. */
  predicate TakenAt(derive: Derive, db: Db, c: Claims, k: nat) { NameTaken(db, derive(NameSource(c), k)) }

  /** Rung 4: the first free of the twenty derived names is the new account's. */
  lemma {:induction false} FirstFreeNameIsMade(derive: Derive, v: System, id: CallId, picks: seq<Choice>, attempt: nat)
    requires Ready(v, id, picks) && StageOf(v, id) == Provisioning(attempt) && |picks| >= 1 && attempt + |picks| <= 20
    requires var c := v.calls[id].claims; (c.email != "" ==> EmailFree(v.db, c.email)) && Unlinked(v.db, c.ident)
    requires forall k | attempt <= k < attempt + |picks| - 1 :: TakenAt(derive, v.db, v.calls[id].claims, k)
    requires !TakenAt(derive, v.db, v.calls[id].claims, attempt + |picks| - 1)
    ensures var c, u := v.calls[id].claims, picks[|picks| - 1].newUser;
            Go(derive, v, id, picks) ==
              Moved(WithAccount(v, id, u, c, derive(NameSource(c), attempt + |picks| - 1)), id, SigningIn(u, true))
    decreases |picks|
  {
    hide Next;
    hide Moved;
    hide NameTaken;
    hide Unlinked;
    hide EmailFree;
    var c, source := v.calls[id].claims, NameSource(v.calls[id].claims);
    if |picks| == 1 {
      FreeNameProvisions(derive, v, id, picks[0], attempt);
      assert picks[1..] == [];
    } else {
      assert TakenAt(derive, v.db, c, attempt);
      TakenNameRetries(derive, v, id, picks[0], attempt);
      var a, rest := Moved(v, id, Provisioning(attempt + 1)), picks[1..];
      FirstFreeNameIsMade(derive, a, id, rest, attempt + 1);
      AccountCommutes(v, id, picks[|picks| - 1].newUser, c, derive(source, attempt + |picks| - 1), Provisioning(attempt + 1));
    }
  }

  lemma AccountCommutes(v: System, id: CallId, u: Uid, c: Claims, name: string, stage: Stage)
    requires id in v.calls
    ensures Moved(WithAccount(Moved(v, id, stage), id, u, c, name), id, SigningIn(u, true)) ==
              Moved(WithAccount(v, id, u, c, name), id, SigningIn(u, true))
  {
    var b := v.calls;
    assert b[id := Call(b[id].claims, stage)][id := Call(b[id].claims, SigningIn(u, true))] == b[id := Call(b[id].claims, SigningIn(u, true))];
  }

  // ----- the link intent

  /**
   A callback that comes with the state and secret of a pending request uses it
   up; it links the account that made the request exactly when that account is
   active and has no link and the identity is free, and signs nobody in.
   */
  lemma IntentLinks(derive: Derive, v: System, id: CallId, p: Choice, q: Choice, r: Choice)
    requires Ready(v, id, [p, q, r]) && StageOf(v, id).Arrived? && !NoIntent(v.db, StageOf(v, id))
    ensures var state, ident := StageOf(v, id).state, v.calls[id].claims.ident;
            var row := v.db.pending[state].1;
            var u, end := v.db.owner[row], Go(derive, v, id, [p, q, r]);
            && end.calls == v.calls[id := Call(v.calls[id].claims, Finished)] && end.sessions == v.sessions
            && end.db.users == v.db.users && end.db.pending == v.db.pending - {state}
            && end.db.links == if IsActive(v.db, u) && u !in v.db.links && Unlinked(v.db, ident) then v.db.links[u := ident] else v.db.links
  {
    hide Next;
    hide Unlinked;
    hide Moved;
    assert p == [p, q, r][0] && q == [p, q, r][1] && r == [p, q, r][2];
    assert [p, q, r] == [p] + [q, r];
    var a := Next(derive, v, Run(id, p));
    ArrivalConsumes(derive, v, id, p);
    GoOn(derive, v, id, p, [q, r]);
    IntentEnds(derive, a, id, q, r);
    MapTwice(v.calls, id, StageOf(a, id));
    SameLinksFree(v.db, a.db, v.calls[id].claims.ident);
  }

  lemma MapTwice(calls: map<CallId, Call>, id: CallId, stage: Stage)
    requires id in calls
    ensures var c := calls[id].claims; calls[id := Call(c, stage)][id := Call(c, Finished)] == calls[id := Call(c, Finished)]
  {
  }

  lemma IntentEnds(derive: Derive, v: System, id: CallId, q: Choice, r: Choice)
    requires Ready(v, id, [q, r]) && StageOf(v, id).Linking?
    ensures var u, ident, end := StageOf(v, id).user, v.calls[id].claims.ident, Go(derive, v, id, [q, r]);
            && end.calls == v.calls[id := Call(v.calls[id].claims, Finished)] && end.sessions == v.sessions
            && end.db.users == v.db.users && end.db.pending == v.db.pending
            && end.db.links == if IsActive(v.db, u) && u !in v.db.links && Unlinked(v.db, ident) then v.db.links[u := ident] else v.db.links
  {
    hide Next;
    hide Unlinked;
    hide Moved;
    assert q == [q, r][0] && r == [q, r][1] && [q, r] == [q] + [r] && [r] == [r] + [];
    LinkingChecks(derive, v, id, q);
    GoOn(derive, v, id, q, [r]);
    var b := Next(derive, v, Run(id, q));
    GoOn(derive, b, id, r, []);
    LinkingEnds(derive, b, id, r);
    MapTwice(v.calls, id, StageOf(b, id));
  }

  lemma SameLinksFree(db: Db, other: Db, ident: Identity)
    requires db.links == other.links
    ensures Unlinked(db, ident) == Unlinked(other, ident)
  {
    assert forall u :: LinkedTo(db, u, ident) == LinkedTo(other, u, ident);
  }

  lemma ArrivalConsumes(derive: Derive, v: System, id: CallId, pick: Choice)
    requires id in v.calls && pick.newUser !in v.db.users && StageOf(v, id).Arrived? && !NoIntent(v.db, StageOf(v, id))
    ensures var state := StageOf(v, id).state;
            var row := v.db.pending[state].1;
            var end := Next(derive, v, Run(id, pick));
            && end.db == v.db.(pending := v.db.pending - {state}) && end.sessions == v.sessions
            && end.calls == v.calls[id := Call(v.calls[id].claims, Linking(v.db.owner[row], row))]
  {
    hide ByIdentity;
    hide ByEmail;
  }

  lemma LinkingChecks(derive: Derive, v: System, id: CallId, pick: Choice)
    requires id in v.calls && pick.newUser !in v.db.users && StageOf(v, id).Linking?
    ensures var u, row := StageOf(v, id).user, StageOf(v, id).row;
            Next(derive, v, Run(id, pick)) == Moved(v, id, if IsActive(v.db, u) then LinkChecked(u, row) else Finished)
  {
    hide ByIdentity;
    hide ByEmail;
  }

  /** The last store call of a link intent, or none when the account was refused. */
  lemma LinkingEnds(derive: Derive, v: System, id: CallId, pick: Choice)
    requires id in v.calls && pick.newUser !in v.db.users && (StageOf(v, id).LinkChecked? || StageOf(v, id).Finished?)
    ensures var end, ident := Next(derive, v, Run(id, pick)), v.calls[id].claims.ident;
            && end.calls == v.calls[id := Call(v.calls[id].claims, Finished)] && end.sessions == v.sessions
            && end.db.users == v.db.users && end.db.pending == v.db.pending
            && end.db.links == (if StageOf(v, id).LinkChecked? && StageOf(v, id).user in v.db.users && StageOf(v, id).user !in v.db.links
                                   && Unlinked(v.db, ident)
                                then v.db.links[StageOf(v, id).user := ident] else v.db.links)
  {
    hide ByEmail;
    hide Unlinked;
    FreeIff(v.db, v.calls[id].claims.ident);
    hide ByIdentity;
  }

  lemma FreeIff(db: Db, ident: Identity)
    ensures ByIdentity(db, ident).None? <==> Unlinked(db, ident)
  {
  }

  // ----- the race between adopting and deactivating

  const SUBJECT: Identity := ("issuer", "subject")
  const CLAIMS: Claims := Claims(SUBJECT, "m", true)

  function Person(active: bool): User { User("name", Some("m"), true, active) }

  function TheDb(active: bool, linked: bool): Db {
    Db(map[1 := Person(active)], if linked then map[1 := SUBJECT] else map[], map[], map[], map[], false)
  }

  function At(active: bool, linked: bool, stage: Stage, sessions: set<Session>): System {
    System(TheDb(active, linked), map[0 := Call(CLAIMS, stage)], map[0 := (0, 0)], sessions, [], map[])
  }

  lemma Nobody(active: bool)
    ensures Unlinked(TheDb(active, false), SUBJECT) && OnlyEmail(TheDb(active, false), 1, "m")
  {
  }

  const PICK: Choice := Choice(9, false)

  const START: System := System(TheDb(true, false), map[], map[], {}, [], map[])

  /** The state after n steps of the race. */
  function RaceState(n: nat): System {
    if n == 0 then START
    else if n == 1 then At(true, false, Arrived(0, 0), {})
    else if n == 2 then At(true, false, Looking, {})
    else if n == 3 then At(true, false, Emailing, {})
    else if n == 4 then At(true, false, Adopting(1), {})
    else if n == 5 then At(false, false, Adopting(1), {})
    else if n == 6 then At(false, true, SigningIn(1, true), {})
    else At(false, true, Finished, {Session(0, 1)})
  }

  function RaceSteps(): seq<Step> {
    [Begin(0, CLAIMS, 0, 0), Run(0, PICK), Run(0, PICK), Run(0, PICK), EditUser(1, Person(false)), Run(0, PICK), Run(0, PICK)]
  }

  /**
   An account deactivated between the email lookup and the link is signed in to
   all the same: its session exists although at no instant of the call was the
   account linked and active.
   */
  lemma DeactivatedWhileAdopted(derive: Derive)
    ensures Initial(START) && Session(0, 1) in Exec(derive, START, RaceSteps()).sessions
    ensures !Ever(derive, START, RaceSteps(), ActiveInstant(0, 1))
    ensures Grounds(derive, START, RaceSteps(), 0, 1)
  {
    hide Next;
    hide Exec;
    hide RaceState;
    hide ActiveInstant;
    hide AdoptableInstant;
    hide DeactivatedInstant;
    var steps := RaceSteps();
    forall n | 0 <= n <= 7 ensures Exec(derive, START, steps[..n]) == RaceState(n) && !ActiveInstant(0, 1)(RaceState(n)) {
      RaceExec(derive, n);
      RaceInstant(n);
    }
    assert steps[..7] == steps;
    RaceInstant(3);
    RaceInstant(6);
    RaceInstant(7);
    assert AdoptableInstant(0, 1)(Exec(derive, START, steps[..3])) && DeactivatedInstant(0, 1)(Exec(derive, START, steps[..6]));
    StartInstant();
  }

  lemma {:induction false} RaceExec(derive: Derive, n: nat)
    requires n <= 7
    ensures Exec(derive, START, RaceSteps()[..n]) == RaceState(n)
  {
    hide Next;
    hide At;
    if n > 0 {
      RaceExec(derive, n - 1);
      RaceNext(derive, n - 1);
      assert RaceSteps()[..n][..n - 1] == RaceSteps()[..n - 1];
    }
  }

  lemma RaceNext(derive: Derive, n: nat)
    requires n < 7
    ensures Next(derive, RaceState(n), RaceSteps()[n]) == RaceState(n + 1)
  {
    hide Next;
    hide At;
    if n < 4 { RaceBegins(derive); } else { RaceEnds(derive); }
  }

  lemma RaceInstant(n: nat)
    requires n <= 7
    ensures !ActiveInstant(0, 1)(RaceState(n))
    ensures n == 3 ==> AdoptableInstant(0, 1)(RaceState(n))
    ensures n == 6 ==> DeactivatedInstant(0, 1)(RaceState(n))
    ensures n == 7 ==> Session(0, 1) in RaceState(n).sessions
  {
    hide At;
    hide ActiveInstant;
    hide AdoptableInstant;
    hide DeactivatedInstant;
    var v := RaceState(n);
    if n == 0 { StartInstant(); }
    else if n == 1 { AtInstant(true, false, Arrived(0, 0), {}, v); }
    else if n == 2 { AtInstant(true, false, Looking, {}, v); }
    else if n == 3 { AtInstant(true, false, Emailing, {}, v); }
    else if n == 4 { AtInstant(true, false, Adopting(1), {}, v); }
    else if n == 5 { AtInstant(false, false, Adopting(1), {}, v); }
    else if n == 6 { AtInstant(false, true, SigningIn(1, true), {}, v); }
    else { AtInstant(false, true, Finished, {Session(0, 1)}, v); }
  }

  lemma StartInstant()
    ensures Initial(START) && !ActiveInstant(0, 1)(START)
  {
  }

  lemma AtInstant(active: bool, linked: bool, stage: Stage, sessions: set<Session>, v: System)
    requires v == At(active, linked, stage, sessions)
    ensures ActiveInstant(0, 1)(v) ==> active && linked
    ensures stage.Emailing? && active ==> AdoptableInstant(0, 1)(v)
    ensures stage.SigningIn? && linked && !active ==> DeactivatedInstant(0, 1)(v)
    ensures v.sessions == sessions && 0 in v.calls && v.calls[0].stage == stage
  {
  }

  lemma RaceBegins(derive: Derive)
    ensures Next(derive, START, Begin(0, CLAIMS, 0, 0)) == At(true, false, Arrived(0, 0), {})
    ensures Next(derive, At(true, false, Arrived(0, 0), {}), Run(0, PICK)) == At(true, false, Looking, {})
    ensures Next(derive, At(true, false, Looking, {}), Run(0, PICK)) == At(true, false, Emailing, {})
    ensures Next(derive, At(true, false, Emailing, {}), Run(0, PICK)) == At(true, false, Adopting(1), {})
  {
    hide Advance;
    hide Unlinked;
    hide OnlyEmail;
    Nobody(true);
    ArrivalLooks(derive, At(true, false, Arrived(0, 0), {}), 0, PICK);
    LookingMisses(derive, At(true, false, Looking, {}), 0, PICK);
    EmailingFinds(derive, At(true, false, Emailing, {}), 0, 1, PICK);
  }

  lemma RaceEnds(derive: Derive)
    ensures Next(derive, At(true, false, Adopting(1), {}), EditUser(1, Person(false))) == At(false, false, Adopting(1), {})
    ensures Next(derive, At(false, false, Adopting(1), {}), Run(0, PICK)) == At(false, true, SigningIn(1, true), {})
    ensures Next(derive, At(false, true, SigningIn(1, true), {}), Run(0, PICK)) == At(false, true, Finished, {Session(0, 1)})
  {
    hide Advance;
    hide Unlinked;
    Nobody(false);
    AdoptingLinks(derive, At(false, false, Adopting(1), {}), 0, 1, PICK);
    SigningInMints(derive, At(false, true, SigningIn(1, true), {}), 0, PICK);
  }
}
