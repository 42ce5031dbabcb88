/**
 Single sign-on callbacks racing over accounts and links
 (server/internal/httpserver/oidc_handlers.go; the store calls are those of
 server/internal/storage/oidc.go).

 A callback is a call that makes one store call per step. Between any two steps
 other callbacks may run, accounts may be edited or unlinked, and the
 provisioning switch may move.
 */
module Sso {
  import opened Bytes

  type Uid = nat
  type CallId = nat
  type Row = nat
  type Identity = (string, string)   // issuer, subject

  const MAX_ATTEMPTS: nat := 20

  /** What the verified ID token says. */
  datatype Claims = Claims(ident: Identity, email: string, verified: bool)

  datatype User = User(username: string, email: Option<string>, directory: bool, active: bool)

  /**
   `links` is oidc_identities, one row per account. `pending` is
   oidc_link_requests by state hash, each with its secret hash and a row number;
   `owner` remembers which account's own session created each row, and `keys` the
   state and secret it was created with.
   */
  datatype Db = Db(
    users: map<Uid, User>, links: map<Uid, Identity>,
    pending: map<nat, (nat, Row)>, owner: map<Row, Uid>, keys: map<Row, (nat, nat)>, provisioning: bool)

  // ----- store calls

  ghost predicate LinkedTo(db: Db, u: Uid, ident: Identity) { u in db.links && db.links[u] == ident }

  /** UserByOidcIdentity: (issuer, subject) is the whole lookup. */
  ghost function ByIdentity(db: Db, ident: Identity): Option<Uid> {
    if exists u :: LinkedTo(db, u, ident) then var u :| LinkedTo(db, u, ident); Some(u) else None
  }

  ghost predicate HasEmail(db: Db, u: Uid, email: string) { u in db.users && db.users[u].email == Some(email) }

  ghost function ByEmail(db: Db, email: string): Option<Uid> {
    if exists u :: HasEmail(db, u, email) then var u :| HasEmail(db, u, email); Some(u) else None
  }

  /** LinkOidcIdentity: refused when the account has a link or the identity has an account. */
  ghost function Link(db: Db, u: Uid, ident: Identity): (Db, bool) {
    if u !in db.users || u in db.links || ByIdentity(db, ident).Some? then (db, false)
    else (db.(links := db.links[u := ident]), true)
  }

  datatype Creation = Made | UsernameTaken | EmailTaken | IdentityTaken

  /** CreateOidcUser: the account and its link in one transaction, or neither. */
  ghost function CreateUser(db: Db, u: Uid, username: string, email: Option<string>, ident: Identity): (Db, Creation)
    requires u !in db.users
  {
    if exists v | v in db.users :: db.users[v].username == username then (db, UsernameTaken)
    else if email.Some? && ByEmail(db, email.value).Some? then (db, EmailTaken)
    else if ByIdentity(db, ident).Some? then (db, IdentityTaken)
    else (db.(users := db.users[u := User(username, email, false, true)], links := db.links[u := ident]), Made)
  }

  // ----- a callback, by where it stands

  datatype Stage =
    | Arrived(state: nat, secret: nat)
    | Linking(user: Uid, row: Row)
    | LinkChecked(user: Uid, row: Row)
    | Looking
    | Emailing
    | Adopting(user: Uid)
    | Deciding
    | Provisioning(attempt: nat)
    | Raced
    | SigningIn(user: Uid, active: bool)
    | Finished

  datatype Call = Call(claims: Claims, stage: Stage)

  datatype Session = Session(call: CallId, user: Uid)
  datatype Birth = Birth(call: CallId, user: Uid)

  /** `presented` remembers the state and secret each callback came with. */
  datatype System = System(
    db: Db, calls: map<CallId, Call>, presented: map<CallId, (nat, nat)>,
    sessions: set<Session>, births: seq<Birth>, consumed: map<Row, CallId>)

  datatype Effect = Effect(db: Db, stage: Stage, sessions: set<Session>, births: seq<Birth>, consumed: map<Row, CallId>)

  function Quiet(db: Db, stage: Stage): Effect { Effect(db, stage, {}, [], map[]) }

  /** The choices a step leaves open: a new account id, and whether a second factor is asked for. */
  datatype Choice = Choice(newUser: Uid, challenged: bool)

  predicate IsActive(db: Db, u: Uid) { u in db.users && db.users[u].active }

  /** Rungs 2 and 3: only a verified email of a directory-managed active account adopts. */
  function AdoptOrRefuse(db: Db, c: Claims, u: Uid): Stage
    requires u in db.users
  {
    if db.users[u].directory && c.verified && db.users[u].active then Adopting(u) else Finished
  }

  /** One store call of a callback. */
  ghost function Advance(derive: (string, nat) -> string, db: Db, id: CallId, call: Call, pick: Choice): Effect
    requires pick.newUser !in db.users
  {
    var c := call.claims;
    match call.stage
    case Arrived(state, secret) =>
      if state in db.pending && db.pending[state].0 == secret && db.pending[state].1 in db.owner then
        var row := db.pending[state].1;
        Effect(db.(pending := db.pending - {state}), Linking(db.owner[row], row), {}, [], map[row := id])
      else Quiet(db, Looking)
    case Linking(u, row) =>
      Quiet(db, if u in db.users && db.users[u].active then LinkChecked(u, row) else Finished)
    case LinkChecked(u, row) => Quiet(Link(db, u, c.ident).0, Finished)
    case Looking =>
      var found := ByIdentity(db, c.ident);
      Quiet(db, if found.Some? then SigningIn(found.value, IsActive(db, found.value)) else if c.email != "" then Emailing else Deciding)
    case Emailing =>
      var found := ByEmail(db, c.email);
      Quiet(db, if found.Some? then AdoptOrRefuse(db, c, found.value) else Deciding)
    case Adopting(u) =>
      var (db', ok) := Link(db, u, c.ident);
      Quiet(db', if ok then SigningIn(u, true) else Finished)
    case Deciding => Quiet(db, if db.provisioning then Provisioning(0) else Finished)
    case Provisioning(attempt) =>
      var source := if c.email == "" then c.ident.1 else c.email;
      var (db', made) := CreateUser(db, pick.newUser, derive(source, attempt), if c.email == "" then None else Some(c.email), c.ident);
      if made.Made? then Effect(db', SigningIn(pick.newUser, true), {}, [Birth(id, pick.newUser)], map[])
      else if made.UsernameTaken? then Quiet(db', if attempt + 1 < MAX_ATTEMPTS then Provisioning(attempt + 1) else Finished)
      else Quiet(db', Raced)
    case Raced =>
      var found := ByIdentity(db, c.ident);
      Quiet(db, if found.Some? then SigningIn(found.value, IsActive(db, found.value)) else Finished)
    case SigningIn(u, active) =>
      // a deactivated account is refused, a second factor sends the browser to its challenge
      Effect(db, Finished, if active && !pick.challenged then {Session(id, u)} else {}, [], map[])
    case Finished => Quiet(db, Finished)
  }

  datatype Step =
    | Begin(id: CallId, claims: Claims, state: nat, secret: nat)
    | Run(id: CallId, pick: Choice)
    | RequestLink(user: Uid, state: nat, secret: nat, row: Row)   // an authenticated session asks to link its own account
    | ExpireLink(state: nat)
    | Unlink(user: Uid)
    | SetProvisioning(on: bool)
    | EditUser(user: Uid, to: User)
    | AddUser(user: Uid, to: User)

  ghost function Next(derive: (string, nat) -> string, w: System, step: Step): System {
    match step
    case Begin(id, c, state, secret) =>
      if id in w.calls then w
      else w.(calls := w.calls[id := Call(c, Arrived(state, secret))], presented := w.presented[id := (state, secret)])
    case Run(id, pick) =>
      if id !in w.calls || pick.newUser in w.db.users then w
      else
        var e := Advance(derive, w.db, id, w.calls[id], pick);
        System(e.db, w.calls[id := w.calls[id].(stage := e.stage)], w.presented, w.sessions + e.sessions, w.births + e.births, w.consumed + e.consumed)
    case RequestLink(u, state, secret, row) =>
      if u !in w.db.users || state in w.db.pending || row in w.db.owner then w
      else w.(db := w.db.(pending := w.db.pending[state := (secret, row)], owner := w.db.owner[row := u], keys := w.db.keys[row := (state, secret)]))
    case ExpireLink(state) => w.(db := w.db.(pending := w.db.pending - {state}))
    case Unlink(u) => w.(db := w.db.(links := w.db.links - {u}))
    case SetProvisioning(on) => w.(db := w.db.(provisioning := on))
    case EditUser(u, to) => if u in w.db.users then w.(db := w.db.(users := w.db.users[u := to])) else w
    case AddUser(u, to) => if u in w.db.users then w else w.(db := w.db.(users := w.db.users[u := to]))
  }

  ghost function Exec(derive: (string, nat) -> string, w: System, steps: seq<Step>): System
    decreases |steps|
  {
    if steps == [] then w else Next(derive, Exec(derive, w, steps[..|steps| - 1]), steps[|steps| - 1])
  }

  ghost predicate Initial(w: System) {
    && OneAccount(w.db) && w.calls == map[] && w.sessions == {} && w.births == [] && w.consumed == map[]
    && w.db.pending == map[] && w.db.owner == map[] && w.db.keys == map[] && w.presented == map[]
  }

  // ----- no identity sits on two accounts

  ghost predicate OneAccount(db: Db) { forall u, v | u in db.links && v in db.links && db.links[u] == db.links[v] :: u == v }

  lemma AdvanceOneAccount(derive: (string, nat) -> string, db: Db, id: CallId, call: Call, pick: Choice)
    requires pick.newUser !in db.users && OneAccount(db)
    ensures OneAccount(Advance(derive, db, id, call, pick).db)
  {
    hide ByIdentity;
    hide ByEmail;
    hide Link;
    hide CreateUser;
    var c := call.claims;
    if call.stage.LinkChecked? || call.stage.Adopting? { LinkOneAccount(db, call.stage.user, c.ident); }
    if call.stage.Provisioning? {
      var source := if c.email == "" then c.ident.1 else c.email;
      CreateOneAccount(db, pick.newUser, derive(source, call.stage.attempt), if c.email == "" then None else Some(c.email), c.ident);
    }
  }

  lemma Unlinked(db: Db, ident: Identity)
    requires ByIdentity(db, ident).None?
    ensures forall u | u in db.links :: db.links[u] != ident
  {
    forall u | u in db.links ensures db.links[u] != ident { assert !LinkedTo(db, u, ident); }
  }

  lemma LinkOneAccount(db: Db, u: Uid, ident: Identity)
    requires OneAccount(db)
    ensures OneAccount(Link(db, u, ident).0)
  {
    hide ByIdentity;
    if ByIdentity(db, ident).None? { Unlinked(db, ident); }
  }

  lemma CreateOneAccount(db: Db, u: Uid, username: string, email: Option<string>, ident: Identity)
    requires u !in db.users && OneAccount(db)
    ensures OneAccount(CreateUser(db, u, username, email, ident).0)
  {
    hide ByIdentity;
    hide ByEmail;
    if ByIdentity(db, ident).None? { Unlinked(db, ident); }
  }

  predicate SameRequests(db: Db, end: Db) { end.owner == db.owner && end.pending == db.pending && end.keys == db.keys }

  /** Neither linking nor creating touches the link requests. */
  lemma StoreKeepsRequests(db: Db, u: Uid, ident: Identity, v: Uid, username: string, email: Option<string>)
    requires v !in db.users
    ensures SameRequests(db, Link(db, u, ident).0) && SameRequests(db, CreateUser(db, v, username, email, ident).0)
  {
    hide ByIdentity;
    hide ByEmail;
  }

  lemma StepOneAccount(derive: (string, nat) -> string, w: System, step: Step)
    requires OneAccount(w.db)
    ensures OneAccount(Next(derive, w, step).db)
  {
    hide Advance;
    if step.Run? && step.id in w.calls && step.pick.newUser !in w.db.users {
      AdvanceOneAccount(derive, w.db, step.id, w.calls[step.id], step.pick);
    }
  }

  /** In every state of every run, no identity sits on two accounts. */
  lemma {:induction false} IdentityOnOneAccount(derive: (string, nat) -> string, w: System, steps: seq<Step>)
    requires Initial(w)
    ensures OneAccount(Exec(derive, w, steps).db)
    decreases |steps|
  {
    hide Next;
    hide OneAccount;
    if steps != [] {
      IdentityOnOneAccount(derive, w, steps[..|steps| - 1]);
      StepOneAccount(derive, Exec(derive, w, steps[..|steps| - 1]), steps[|steps| - 1]);
    }
  }

  // ----- instants of a run

  /** At some state of the run so far, p held. */
  ghost predicate Ever(derive: (string, nat) -> string, w: System, steps: seq<Step>, p: System -> bool) {
    exists n | 0 <= n <= |steps| :: p(Exec(derive, w, steps[..n]))
  }

  lemma EverGrows(derive: (string, nat) -> string, w: System, steps: seq<Step>, p: System -> bool)
    requires steps != [] && Ever(derive, w, steps[..|steps| - 1], p)
    ensures Ever(derive, w, steps, p)
  {
    hide Exec;
    var front := steps[..|steps| - 1];
    var n :| 0 <= n <= |front| && p(Exec(derive, w, front[..n]));
    assert front[..n] == steps[..n];
  }

  lemma EverNow(derive: (string, nat) -> string, w: System, steps: seq<Step>, p: System -> bool)
    requires p(Exec(derive, w, steps))
    ensures Ever(derive, w, steps, p)
  {
    hide Exec;
    assert steps[..|steps|] == steps;
  }

  lemma StartState(derive: (string, nat) -> string, w: System)
    ensures Exec(derive, w, []) == w
  {
    hide Next;
  }

  lemma LastStep(derive: (string, nat) -> string, w: System, steps: seq<Step>)
    requires steps != []
    ensures Exec(derive, w, steps) == Next(derive, Exec(derive, w, steps[..|steps| - 1]), steps[|steps| - 1])
  {
    hide Next;
  }

  predicate Underway(w: System, id: CallId) { id in w.calls && !w.calls[id].stage.Finished? }

  /** An instant of call `id` at which its identity is linked to u. */
  ghost function LinkedInstant(id: CallId, u: Uid): System -> bool {
    (w: System) => Underway(w, id) && LinkedTo(w.db, u, w.calls[id].claims.ident)
  }

  /** The instant call `id` reads the settings, with provisioning on. */
  ghost function SwitchOnInstant(id: CallId): System -> bool {
    (w: System) => Underway(w, id) && w.calls[id].stage.Deciding? && w.db.provisioning
  }

  /** The instant call `id` looks its verified email up and finds a directory-managed active account. */
  ghost function AdoptableInstant(id: CallId, u: Uid): System -> bool {
    (w: System) =>
      && Underway(w, id) && w.calls[id].stage.Emailing? && w.calls[id].claims.verified
      && HasEmail(w.db, u, w.calls[id].claims.email) && w.db.users[u].directory && w.db.users[u].active
  }

  // ----- sessions

  lemma FoundIsLinked(db: Db, ident: Identity)
    ensures ByIdentity(db, ident).Some? ==> LinkedTo(db, ByIdentity(db, ident).value, ident)
  {
  }

  lemma LinkedOnSuccess(db: Db, u: Uid, ident: Identity)
    ensures Link(db, u, ident).1 ==> LinkedTo(Link(db, u, ident).0, u, ident)
  {
    hide ByIdentity;
  }

  lemma BornLinked(db: Db, u: Uid, username: string, email: Option<string>, ident: Identity)
    requires u !in db.users
    ensures CreateUser(db, u, username, email, ident).1.Made? ==> LinkedTo(CreateUser(db, u, username, email, ident).0, u, ident)
  {
    hide ByIdentity;
    hide ByEmail;
  }

  lemma AdvanceSignsInLinked(derive: (string, nat) -> string, db: Db, id: CallId, call: Call, pick: Choice)
    requires pick.newUser !in db.users
    ensures var e := Advance(derive, db, id, call, pick);
            && (e.stage.SigningIn? ==> LinkedTo(e.db, e.stage.user, call.claims.ident))
            && (forall x | x in e.sessions :: x.call == id && call.stage.SigningIn? && call.stage.user == x.user)
  {
    var c := call.claims;
    FoundIsLinked(db, c.ident);
    if call.stage.Adopting? { LinkedOnSuccess(db, call.stage.user, c.ident); }
    if call.stage.Provisioning? {
      var source := if c.email == "" then c.ident.1 else c.email;
      BornLinked(db, pick.newUser, derive(source, call.stage.attempt), if c.email == "" then None else Some(c.email), c.ident);
    }
    hide LinkedTo;
    hide ByIdentity;
    hide HasEmail;
    hide ByEmail;
    hide Link;
    hide CreateUser;
  }

  ghost predicate SessionsLinked(derive: (string, nat) -> string, w: System, steps: seq<Step>, v: System) {
    && (forall x | x in v.sessions :: Ever(derive, w, steps, LinkedInstant(x.call, x.user)))
    && forall id | id in v.calls && v.calls[id].stage.SigningIn? :: Ever(derive, w, steps, LinkedInstant(id, v.calls[id].stage.user))
  }

  /**
   In every interleaving, a session is minted only for an account the call's
   (issuer, subject) was linked to at some instant of that call.
   */
  lemma {:induction false} SessionsAreLinked(derive: (string, nat) -> string, w: System, steps: seq<Step>)
    requires Initial(w)
    ensures SessionsLinked(derive, w, steps, Exec(derive, w, steps))
    decreases |steps|
  {
    hide Advance;
    hide Ever;
    hide Exec;
    if steps == [] {
      StartState(derive, w);
    } else {
      var front, step := steps[..|steps| - 1], steps[|steps| - 1];
      SessionsAreLinked(derive, w, front);
      LastStep(derive, w, steps);
      var v, end := Exec(derive, w, front), Exec(derive, w, steps);
      forall id, u | Ever(derive, w, front, LinkedInstant(id, u)) ensures Ever(derive, w, steps, LinkedInstant(id, u)) {
        EverGrows(derive, w, steps, LinkedInstant(id, u));
      }
      if step.Run? && step.id in v.calls && step.pick.newUser !in v.db.users {
        AdvanceSignsInLinked(derive, v.db, step.id, v.calls[step.id], step.pick);
        if end.calls[step.id].stage.SigningIn? { EverNow(derive, w, steps, LinkedInstant(step.id, end.calls[step.id].stage.user)); }
      }
    }
  }

  // ----- activity

  /** An instant of call `id` at which u is linked to its identity and active. */
  ghost function ActiveInstant(id: CallId, u: Uid): System -> bool {
    (w: System) => Underway(w, id) && LinkedTo(w.db, u, w.calls[id].claims.ident) && IsActive(w.db, u)
  }

  /** An instant of call `id` at which u is linked to its identity but no longer active. */
  ghost function DeactivatedInstant(id: CallId, u: Uid): System -> bool {
    (w: System) => Underway(w, id) && LinkedTo(w.db, u, w.calls[id].claims.ident) && !IsActive(w.db, u)
  }

  /**
   The grounds for a session: the account was linked and active at one instant of
   the call, or the call adopted it, having found it active, and it was
   deactivated before the link was made.
   */
  ghost predicate Grounds(derive: (string, nat) -> string, w: System, steps: seq<Step>, id: CallId, u: Uid) {
    || Ever(derive, w, steps, ActiveInstant(id, u))
    || (Ever(derive, w, steps, AdoptableInstant(id, u)) && Ever(derive, w, steps, DeactivatedInstant(id, u)))
  }

  /** An unchallenged step of the call. */
  ghost predicate Unchallenged(steps: seq<Step>, id: CallId) {
    exists n | 0 <= n < |steps| :: steps[n].Run? && steps[n].id == id && !steps[n].pick.challenged
  }

  /** Where a call comes to sign in as active, and what it mints when it does. */
  lemma AdvanceActivates(derive: (string, nat) -> string, db: Db, id: CallId, call: Call, pick: Choice)
    requires pick.newUser !in db.users
    ensures var e := Advance(derive, db, id, call, pick);
            && (e.stage.SigningIn? && e.stage.active ==>
                  var u := e.stage.user;
                  && LinkedTo(e.db, u, call.claims.ident)
                  && (IsActive(e.db, u) || call.stage == Adopting(u)))
            && (forall x | x in e.sessions ::
                  x == Session(id, x.user) && call.stage == SigningIn(x.user, true) && !pick.challenged)
  {
    AdvanceSignsInLinked(derive, db, id, call, pick);
    hide LinkedTo;
    hide ByIdentity;
    hide ByEmail;
    hide Link;
    if call.stage.Looking? || call.stage.Raced? { ReadTouches(derive, db, id, call, pick); }
  }

  ghost predicate ActivityInv(derive: (string, nat) -> string, w: System, steps: seq<Step>, v: System) {
    && (forall x | x in v.sessions :: Grounds(derive, w, steps, x.call, x.user) && Unchallenged(steps, x.call))
    && forall id | id in v.calls && v.calls[id].stage.SigningIn? && v.calls[id].stage.active ::
         Grounds(derive, w, steps, id, v.calls[id].stage.user)
  }

  lemma GroundsGrow(derive: (string, nat) -> string, w: System, steps: seq<Step>, id: CallId, u: Uid)
    requires steps != [] && Grounds(derive, w, steps[..|steps| - 1], id, u)
    ensures Grounds(derive, w, steps, id, u)
  {
    hide Ever;
    var front := steps[..|steps| - 1];
    if Ever(derive, w, front, ActiveInstant(id, u)) {
      EverGrows(derive, w, steps, ActiveInstant(id, u));
    } else {
      EverGrows(derive, w, steps, AdoptableInstant(id, u));
      EverGrows(derive, w, steps, DeactivatedInstant(id, u));
    }
  }

  /** The call that just came to sign in has its grounds in the state it reached. */
  lemma GroundsNow(derive: (string, nat) -> string, w: System, steps: seq<Step>, id: CallId, u: Uid)
    requires var end := Exec(derive, w, steps);
             Underway(end, id) && LinkedTo(end.db, u, end.calls[id].claims.ident)
    requires IsActive(Exec(derive, w, steps).db, u) || Ever(derive, w, steps, AdoptableInstant(id, u))
    ensures Grounds(derive, w, steps, id, u)
  {
    hide Exec;
    hide Ever;
    if IsActive(Exec(derive, w, steps).db, u) {
      EverNow(derive, w, steps, ActiveInstant(id, u));
    } else {
      EverNow(derive, w, steps, DeactivatedInstant(id, u));
    }
  }

  /**
   In every interleaving, a session is minted only by an unchallenged step, and
   only for an account that was linked and active at one instant of the call,
   unless the call adopted it and it was deactivated meanwhile.
   */
  lemma {:induction false} SessionsAreActive(derive: (string, nat) -> string, w: System, steps: seq<Step>)
    requires Initial(w)
    ensures ActivityInv(derive, w, steps, Exec(derive, w, steps))
    decreases |steps|
  {
    hide Advance;
    hide Ever;
    hide Exec;
    hide Grounds;
    if steps == [] {
      StartState(derive, w);
    } else {
      var front, step := steps[..|steps| - 1], steps[|steps| - 1];
      SessionsAreActive(derive, w, front);
      LastStep(derive, w, steps);
      var v, end := Exec(derive, w, front), Exec(derive, w, steps);
      forall id, u | Grounds(derive, w, front, id, u) ensures Grounds(derive, w, steps, id, u) { GroundsGrow(derive, w, steps, id, u); }
      assert forall n | 0 <= n < |front| :: front[n] == steps[n];
      if step.Run? && step.id in v.calls && step.pick.newUser !in v.db.users { StepActivates(derive, w, steps); }
    }
  }

  lemma StepActivates(derive: (string, nat) -> string, w: System, steps: seq<Step>)
    requires Initial(w) && steps != []
    requires var v, step := Exec(derive, w, steps[..|steps| - 1]), steps[|steps| - 1];
             && step.Run? && step.id in v.calls && step.pick.newUser !in v.db.users
             && ActivityInv(derive, w, steps[..|steps| - 1], v)
    ensures var v, end, id := Exec(derive, w, steps[..|steps| - 1]), Exec(derive, w, steps), steps[|steps| - 1].id;
            && id in end.calls
            && (end.calls[id].stage.SigningIn? && end.calls[id].stage.active ==> Grounds(derive, w, steps, id, end.calls[id].stage.user))
            && (forall x | x in end.sessions && x !in v.sessions :: Grounds(derive, w, steps, x.call, x.user) && Unchallenged(steps, x.call))
  {
    hide Advance;
    hide Ever;
    hide Exec;
    hide Grounds;
    hide LinkedTo;
    hide IsActive;
    var front, step := steps[..|steps| - 1], steps[|steps| - 1];
    var v := Exec(derive, w, front);
    LastStep(derive, w, steps);
    var end, id := Exec(derive, w, steps), step.id;
    AdvanceActivates(derive, v.db, id, v.calls[id], step.pick);
    if end.calls[id].stage.SigningIn? && end.calls[id].stage.active {
      var u := end.calls[id].stage.user;
      AdoptionsAreVerified(derive, w, front);
      if v.calls[id].stage == Adopting(u) { EverGrows(derive, w, steps, AdoptableInstant(id, u)); }
      GroundsNow(derive, w, steps, id, u);
    }
    forall x | x in end.sessions && x !in v.sessions ensures Grounds(derive, w, steps, x.call, x.user) && Unchallenged(steps, x.call) {
      assert x.call == id && v.calls[id].stage == SigningIn(x.user, true);
      GroundsGrow(derive, w, steps, id, x.user);
    }
  }

  // ----- accounts created

  predicate PastBirth(stage: Stage) { stage.SigningIn? || stage.Finished? }

  lemma AdvanceBirths(derive: (string, nat) -> string, db: Db, id: CallId, call: Call, pick: Choice)
    requires pick.newUser !in db.users
    ensures var e := Advance(derive, db, id, call, pick);
            && (e.births != [] ==> e.births == [Birth(id, pick.newUser)] && call.stage.Provisioning? && PastBirth(e.stage))
            && (PastBirth(call.stage) ==> e.births == [] && PastBirth(e.stage))
            && (e.stage.Provisioning? ==> call.stage.Provisioning? || (call.stage.Deciding? && db.provisioning))
            && (forall u | u in e.db.users && u !in db.users :: e.births == [Birth(id, u)])
  {
    hide LinkedTo;
    hide HasEmail;
    hide ByEmail;
    hide ByIdentity;
  }

  ghost predicate BirthInv(derive: (string, nat) -> string, w: System, steps: seq<Step>, v: System) {
    && (forall i, j | 0 <= i < j < |v.births| :: v.births[i].call != v.births[j].call)
    && (forall i | 0 <= i < |v.births| :: v.births[i].call in v.calls && PastBirth(v.calls[v.births[i].call].stage)
                                          && Ever(derive, w, steps, SwitchOnInstant(v.births[i].call)))
    && forall id | id in v.calls && v.calls[id].stage.Provisioning? :: Ever(derive, w, steps, SwitchOnInstant(id))
  }

  /** One call creates at most one account, and only if it read the provisioning switch as on. */
  lemma {:induction false} BirthsAreProvisioned(derive: (string, nat) -> string, w: System, steps: seq<Step>)
    requires Initial(w)
    ensures BirthInv(derive, w, steps, Exec(derive, w, steps))
    decreases |steps|
  {
    hide Advance;
    hide Ever;
    hide Exec;
    if steps == [] {
      StartState(derive, w);
    } else {
      var front, step := steps[..|steps| - 1], steps[|steps| - 1];
      BirthsAreProvisioned(derive, w, front);
      LastStep(derive, w, steps);
      var v := Exec(derive, w, front);
      forall id | Ever(derive, w, front, SwitchOnInstant(id)) ensures Ever(derive, w, steps, SwitchOnInstant(id)) {
        EverGrows(derive, w, steps, SwitchOnInstant(id));
      }
      if step.Run? && step.id in v.calls && v.calls[step.id].stage.Deciding? && v.db.provisioning {
        EverNow(derive, w, front, SwitchOnInstant(step.id));
        EverGrows(derive, w, steps, SwitchOnInstant(step.id));
      }
      BirthInvGrows(derive, w, front, steps, v);
      StepKeepsBirths(derive, w, steps, v, step);
    }
  }

  lemma BirthInvGrows(derive: (string, nat) -> string, w: System, front: seq<Step>, steps: seq<Step>, v: System)
    requires BirthInv(derive, w, front, v)
    requires forall id | Ever(derive, w, front, SwitchOnInstant(id)) :: Ever(derive, w, steps, SwitchOnInstant(id))
    ensures BirthInv(derive, w, steps, v)
  {
    hide Ever;
    hide SwitchOnInstant;
  }

  lemma StepKeepsBirths(derive: (string, nat) -> string, w: System, steps: seq<Step>, v: System, step: Step)
    requires BirthInv(derive, w, steps, v)
    requires step.Run? && step.id in v.calls && v.calls[step.id].stage.Deciding? && v.db.provisioning ==>
               Ever(derive, w, steps, SwitchOnInstant(step.id))
    ensures BirthInv(derive, w, steps, Next(derive, v, step))
  {
    hide Advance;
    hide Ever;
    hide SwitchOnInstant;
    if step.Run? && step.id in v.calls && step.pick.newUser !in v.db.users {
      AdvanceBirths(derive, v.db, step.id, v.calls[step.id], step.pick);
    }
  }

  // ----- how an account that is already there gains a link

  lemma AdvanceLinks(derive: (string, nat) -> string, db: Db, id: CallId, call: Call, pick: Choice, u: Uid)
    requires pick.newUser !in db.users && u in db.users && u !in db.links
    requires u in Advance(derive, db, id, call, pick).db.links
    ensures call.stage == Adopting(u) || (call.stage.LinkChecked? && call.stage.user == u)
    ensures Advance(derive, db, id, call, pick).db.links[u] == call.claims.ident
  {
    hide LinkedTo;
    hide HasEmail;
    hide ByEmail;
    hide ByIdentity;
  }

  /** A link appears on an existing account only by adoption or by a consumed link request. */
  lemma LinkGained(derive: (string, nat) -> string, w: System, step: Step, u: Uid)
    requires u in w.db.users && u !in w.db.links && u in Next(derive, w, step).db.links
    ensures step.Run? && step.id in w.calls
    ensures var call := w.calls[step.id];
            && (call.stage == Adopting(u) || (call.stage.LinkChecked? && call.stage.user == u))
            && Next(derive, w, step).db.links[u] == call.claims.ident
  {
    hide Advance;
    if step.Run? && step.id in w.calls && step.pick.newUser !in w.db.users {
      AdvanceLinks(derive, w.db, step.id, w.calls[step.id], step.pick, u);
    }
  }

  lemma AdvanceAdopts(derive: (string, nat) -> string, db: Db, id: CallId, call: Call, pick: Choice)
    requires pick.newUser !in db.users
    ensures var e := Advance(derive, db, id, call, pick);
            e.stage.Adopting? ==>
              && call.stage.Emailing? && call.claims.verified && HasEmail(db, e.stage.user, call.claims.email)
              && db.users[e.stage.user].directory && db.users[e.stage.user].active
  {
    hide LinkedTo;
    hide ByIdentity;
  }

  /** Adoption rests on a verified email naming a directory-managed active account at an instant of that call. */
  lemma {:induction false} AdoptionsAreVerified(derive: (string, nat) -> string, w: System, steps: seq<Step>)
    requires Initial(w)
    ensures var v := Exec(derive, w, steps);
            forall id | id in v.calls && v.calls[id].stage.Adopting? :: Ever(derive, w, steps, AdoptableInstant(id, v.calls[id].stage.user))
    decreases |steps|
  {
    hide Advance;
    hide Ever;
    hide Exec;
    if steps == [] {
      StartState(derive, w);
    } else {
      var front, step := steps[..|steps| - 1], steps[|steps| - 1];
      AdoptionsAreVerified(derive, w, front);
      LastStep(derive, w, steps);
      var v, end := Exec(derive, w, front), Exec(derive, w, steps);
      forall id, u | Ever(derive, w, front, AdoptableInstant(id, u)) ensures Ever(derive, w, steps, AdoptableInstant(id, u)) {
        EverGrows(derive, w, steps, AdoptableInstant(id, u));
      }
      if step.Run? && step.id in v.calls && step.pick.newUser !in v.db.users && end.calls[step.id].stage.Adopting? {
        AdvanceAdopts(derive, v.db, step.id, v.calls[step.id], step.pick);
        EverNow(derive, w, front, AdoptableInstant(step.id, end.calls[step.id].stage.user));
        EverGrows(derive, w, steps, AdoptableInstant(step.id, end.calls[step.id].stage.user));
      }
    }
  }

  /** The callback came with the state and the secret the request was made with. */
  ghost predicate Presents(v: System, id: CallId, row: Row) {
    id in v.presented && row in v.db.keys && v.presented[id] == v.db.keys[row]
  }

  /**
   Link requests are single-use and stay with the account whose session made
   them: a pending row was never consumed, and a call holding a link intent is the
   one call that consumed that account's own row.
   */
  ghost predicate RequestInv(v: System) {
    && (forall s | s in v.db.pending :: v.db.pending[s].1 in v.db.owner && v.db.pending[s].1 !in v.consumed)
    && (forall s, t | s in v.db.pending && t in v.db.pending && v.db.pending[s].1 == v.db.pending[t].1 :: s == t)
    && (forall r | r in v.consumed :: r in v.db.owner)
    && forall id | id in v.calls && (v.calls[id].stage.Linking? || v.calls[id].stage.LinkChecked?) ::
         var stage := v.calls[id].stage;
         && stage.row in v.consumed && v.consumed[stage.row] == id
         && v.db.owner[stage.row] == stage.user
  }

  /** What one store call of a call does to the requests. */
  ghost predicate TouchesRequests(db: Db, id: CallId, stage: Stage, e: Effect) {
    && e.db.owner == db.owner && e.db.keys == db.keys && !e.stage.Arrived?
    && (forall s | s in e.db.pending :: s in db.pending && e.db.pending[s] == db.pending[s])
    && if stage.Arrived? && e.stage.Linking? then Consumes(db, id, stage, e)
       else
         && e.consumed == map[]
         && (e.stage.Linking? || e.stage.LinkChecked? ==> (stage.Linking? || stage.LinkChecked?)
                                                          && e.stage.row == stage.row && e.stage.user == stage.user)
  }

  /** The call takes the row whose state and secret it came with, and the account that made it. */
  ghost predicate Consumes(db: Db, id: CallId, stage: Stage, e: Effect) {
    && stage.Arrived? && e.stage.Linking?
    && stage.state in db.pending && stage.state !in e.db.pending && db.pending[stage.state] == (stage.secret, e.stage.row)
    && e.stage.row in db.owner && e.stage.user == db.owner[e.stage.row] && e.consumed == map[e.stage.row := id]
  }

  lemma ArrivalTouches(derive: (string, nat) -> string, db: Db, id: CallId, call: Call, pick: Choice)
    requires pick.newUser !in db.users && call.stage.Arrived?
    ensures TouchesRequests(db, id, call.stage, Advance(derive, db, id, call, pick))
  {
    hide ByIdentity;
    hide ByEmail;
    hide Link;
    hide CreateUser;
  }

  /** The stages whose store call only reads. */
  predicate OnlyReads(stage: Stage) {
    stage.Linking? || stage.Looking? || stage.Emailing? || stage.Deciding? || stage.Raced? || stage.SigningIn? || stage.Finished?
  }

  lemma ReadTouches(derive: (string, nat) -> string, db: Db, id: CallId, call: Call, pick: Choice)
    requires pick.newUser !in db.users && OnlyReads(call.stage)
    ensures TouchesRequests(db, id, call.stage, Advance(derive, db, id, call, pick)) && Advance(derive, db, id, call, pick).db == db
  {
    hide ByEmail;
    hide ByIdentity;
    hide Consumes;
  }

  lemma WriteTouches(derive: (string, nat) -> string, db: Db, id: CallId, call: Call, pick: Choice)
    requires pick.newUser !in db.users && (call.stage.LinkChecked? || call.stage.Adopting? || call.stage.Provisioning?)
    ensures TouchesRequests(db, id, call.stage, Advance(derive, db, id, call, pick))
  {
    hide ByEmail;
    hide ByIdentity;
    hide Link;
    hide CreateUser;
    hide Consumes;
    var c := call.claims;
    var source := if c.email == "" then c.ident.1 else c.email;
    StoreKeepsRequests(db, if call.stage.Provisioning? then 0 else call.stage.user, c.ident,
                       pick.newUser, derive(source, if call.stage.Provisioning? then call.stage.attempt else 0),
                       if c.email == "" then None else Some(c.email));
  }

  lemma AdvanceRequests(derive: (string, nat) -> string, db: Db, id: CallId, call: Call, pick: Choice)
    requires pick.newUser !in db.users
    ensures TouchesRequests(db, id, call.stage, Advance(derive, db, id, call, pick))
  {
    hide Advance;
    hide TouchesRequests;
    if call.stage.Arrived? { ArrivalTouches(derive, db, id, call, pick); }
    else if OnlyReads(call.stage) { ReadTouches(derive, db, id, call, pick); }
    else { WriteTouches(derive, db, id, call, pick); }
  }

  ghost function After(v: System, id: CallId, e: Effect): System
    requires id in v.calls
  {
    System(e.db, v.calls[id := v.calls[id].(stage := e.stage)], v.presented, v.sessions + e.sessions, v.births + e.births, v.consumed + e.consumed)
  }

  lemma StepKeepsRequests(derive: (string, nat) -> string, v: System, step: Step)
    requires RequestInv(v)
    ensures RequestInv(Next(derive, v, step))
    ensures forall r | r in v.consumed :: r in Next(derive, v, step).consumed && Next(derive, v, step).consumed[r] == v.consumed[r]
  {
    hide Advance;
    if step.Run? {
      if step.id in v.calls && step.pick.newUser !in v.db.users {
        AdvanceRequests(derive, v.db, step.id, v.calls[step.id], step.pick);
        RunKeepsRequests(v, step.id, Advance(derive, v.db, step.id, v.calls[step.id], step.pick));
      }
    }
  }

  lemma RunKeepsRequests(v: System, id: CallId, e: Effect)
    requires RequestInv(v) && id in v.calls && TouchesRequests(v.db, id, v.calls[id].stage, e)
    ensures RequestInv(After(v, id, e))
    ensures forall r | r in v.consumed :: r in After(v, id, e).consumed && After(v, id, e).consumed[r] == v.consumed[r]
  {
  }

  /** Rows keep the state and secret they were made with, calls those they came with, and consumers matched them. */
  ghost predicate TicketInv(v: System) {
    && (forall s | s in v.db.pending ::
          v.db.pending[s].1 in v.db.keys && v.db.keys[v.db.pending[s].1] == (s, v.db.pending[s].0))
    && (forall id | id in v.calls :: id in v.presented
          && (v.calls[id].stage.Arrived? ==> v.presented[id] == (v.calls[id].stage.state, v.calls[id].stage.secret)))
    && (forall r | r in v.db.keys :: r in v.db.owner)
    && forall r | r in v.consumed :: v.consumed[r] in v.calls && Presents(v, v.consumed[r], r)
  }

  lemma RunKeepsTickets(v: System, id: CallId, e: Effect)
    requires TicketInv(v) && id in v.calls && TouchesRequests(v.db, id, v.calls[id].stage, e)
    ensures TicketInv(After(v, id, e))
  {
  }

  lemma StepKeepsTickets(derive: (string, nat) -> string, v: System, step: Step)
    requires TicketInv(v)
    ensures TicketInv(Next(derive, v, step))
  {
    hide Advance;
    if step.Run? && step.id in v.calls && step.pick.newUser !in v.db.users {
      AdvanceRequests(derive, v.db, step.id, v.calls[step.id], step.pick);
      RunKeepsTickets(v, step.id, Advance(derive, v.db, step.id, v.calls[step.id], step.pick));
    }
  }

  /** In every run, whoever consumed a link request came with its state and its secret. */
  lemma {:induction false} ConsumersPresent(derive: (string, nat) -> string, w: System, steps: seq<Step>)
    requires Initial(w)
    ensures TicketInv(Exec(derive, w, steps))
    decreases |steps|
  {
    hide Next;
    hide TicketInv;
    if steps == [] {
      InitialTickets(w);
    } else {
      ConsumersPresent(derive, w, steps[..|steps| - 1]);
      StepKeepsTickets(derive, Exec(derive, w, steps[..|steps| - 1]), steps[|steps| - 1]);
    }
  }

  lemma InitialTickets(w: System)
    requires Initial(w)
    ensures TicketInv(w)
  {
  }

  lemma {:induction false} RequestsAreSingleUse(derive: (string, nat) -> string, w: System, steps: seq<Step>)
    requires Initial(w)
    ensures RequestInv(Exec(derive, w, steps))
    decreases |steps|
  {
    hide Next;
    hide RequestInv;
    if steps == [] {
      InitialRequests(w);
    } else {
      RequestsAreSingleUse(derive, w, steps[..|steps| - 1]);
      StepKeepsRequests(derive, Exec(derive, w, steps[..|steps| - 1]), steps[|steps| - 1]);
    }
  }

  lemma InitialRequests(w: System)
    requires Initial(w)
    ensures RequestInv(w)
  {
  }

  /** No request is ever consumed twice: the first consumer of a row stays its only one. */
  lemma {:induction false} ConsumedOnce(derive: (string, nat) -> string, w: System, steps: seq<Step>, n: nat, row: Row)
    requires Initial(w) && n <= |steps| && row in Exec(derive, w, steps[..n]).consumed
    ensures row in Exec(derive, w, steps).consumed
    ensures Exec(derive, w, steps).consumed[row] == Exec(derive, w, steps[..n]).consumed[row]
    decreases |steps|
  {
    hide Next;
    hide RequestInv;
    if n == |steps| {
      assert steps[..n] == steps;
    } else {
      var front := steps[..|steps| - 1];
      assert front[..n] == steps[..n];
      ConsumedOnce(derive, w, front, n, row);
      RequestsAreSingleUse(derive, w, front);
      StepKeepsRequests(derive, Exec(derive, w, front), steps[|steps| - 1]);
    }
  }

  /** The instant call `id`, holding u's link intent, reads u as active. */
  ghost function LinkableInstant(id: CallId, u: Uid): System -> bool {
    (w: System) => Underway(w, id) && w.calls[id].stage.Linking? && w.calls[id].stage.user == u && IsActive(w.db, u)
  }

  lemma AdvanceChecks(derive: (string, nat) -> string, db: Db, id: CallId, call: Call, pick: Choice)
    requires pick.newUser !in db.users
    ensures var e := Advance(derive, db, id, call, pick);
            e.stage.LinkChecked? ==> call.stage.Linking? && call.stage.user == e.stage.user && IsActive(db, e.stage.user)
  {
    hide ByIdentity;
    hide ByEmail;
    hide Link;
    hide CreateUser;
  }

  /** A link intent goes on only for an account that was active at an instant of the call. */
  lemma {:induction false} LinksAreChecked(derive: (string, nat) -> string, w: System, steps: seq<Step>)
    requires Initial(w)
    ensures var v := Exec(derive, w, steps);
            forall id | id in v.calls && v.calls[id].stage.LinkChecked? :: Ever(derive, w, steps, LinkableInstant(id, v.calls[id].stage.user))
    decreases |steps|
  {
    hide Advance;
    hide Ever;
    hide Exec;
    if steps == [] {
      StartState(derive, w);
    } else {
      var front, step := steps[..|steps| - 1], steps[|steps| - 1];
      LinksAreChecked(derive, w, front);
      LastStep(derive, w, steps);
      var v, end := Exec(derive, w, front), Exec(derive, w, steps);
      forall id, u | Ever(derive, w, front, LinkableInstant(id, u)) ensures Ever(derive, w, steps, LinkableInstant(id, u)) {
        EverGrows(derive, w, steps, LinkableInstant(id, u));
      }
      if step.Run? && step.id in v.calls && step.pick.newUser !in v.db.users && end.calls[step.id].stage.LinkChecked? {
        AdvanceChecks(derive, v.db, step.id, v.calls[step.id], step.pick);
        EverNow(derive, w, front, LinkableInstant(step.id, end.calls[step.id].stage.user));
        EverGrows(derive, w, steps, LinkableInstant(step.id, end.calls[step.id].stage.user));
      }
    }
  }

  /**
   Over every run: when an account that already exists gains a link at step n, it
   is the acting call's own identity, and either that call had found the account
   by a verified email and its directory id, or the call came with the state and
   secret of a link request made by the account's own session, is the one that
   consumed it, and read the account as active.
   */
  lemma LinksAreAuthorised(derive: (string, nat) -> string, w: System, steps: seq<Step>, n: nat, u: Uid)
    requires Initial(w) && n < |steps|
    requires var v := Exec(derive, w, steps[..n]); u in v.db.users && u !in v.db.links
    requires u in Exec(derive, w, steps[..n + 1]).db.links
    ensures var v := Exec(derive, w, steps[..n]);
            && steps[n].Run? && steps[n].id in v.calls
            && Exec(derive, w, steps[..n + 1]).db.links[u] == v.calls[steps[n].id].claims.ident
            && (|| Ever(derive, w, steps[..n], AdoptableInstant(steps[n].id, u))
                || (&& Ever(derive, w, steps[..n], LinkableInstant(steps[n].id, u))
                    && exists row | row in v.consumed && v.consumed[row] == steps[n].id ::
                         row in v.db.owner && v.db.owner[row] == u && Presents(v, steps[n].id, row)))
  {
    hide Next;
    hide Exec;
    hide Ever;
    var v := Exec(derive, w, steps[..n]);
    assert steps[..n + 1][..n] == steps[..n];
    LastStep(derive, w, steps[..n + 1]);
    LinkGained(derive, v, steps[n], u);
    AdoptionsAreVerified(derive, w, steps[..n]);
    LinksAreChecked(derive, w, steps[..n]);
    RequestsAreSingleUse(derive, w, steps[..n]);
    ConsumersPresent(derive, w, steps[..n]);
  }
}
