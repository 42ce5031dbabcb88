/**
 How a fresh instance gets its first administrator (firstAdmin of
 server/cmd/hamlaneh-server/home.go and EnsureAdmin of
 server/internal/bootstrap/bootstrap.go), with any number of starts sharing one
 users table. Counting, creating and announcing are separate atomic steps.
 */
module FirstAdmin {
  import opened Bytes

  type Process = nat

  const DEFAULT_NAME: string := "admin"

  /** The bootstrap variables of one start; an unset variable is the empty string. */
  datatype Environment = Environment(home: bool, username: string, password: string, locale: string)

  datatype Config = Config(username: string, password: string, locale: string)

  /** What firstAdmin hands to EnsureAdmin. */
  datatype Plan = Plan(cfg: Config, present: bool, minted: bool)

  function PlanFor(env: Environment, generated: string): Plan {
    var locale := if env.locale == "" then "en" else env.locale;
    var cfg := Config(env.username, env.password, locale);
    var present := env.username != "" && env.password != "";
    if present || !env.home then Plan(cfg, present, false)
    else
      var named := if env.username == "" then cfg.(username := DEFAULT_NAME) else cfg;
      if env.password != "" then Plan(named, true, false) else Plan(named.(password := generated), true, true)
  }

  predicate NameStart(c: char) { 'a' <= c <= 'z' || '0' <= c <= '9' }

  /** uservalidate.Username, uservalidate.Password and the locale rule. */
  predicate Validates(cfg: Config) {
    && 3 <= |cfg.username| <= 32 && NameStart(cfg.username[0])
    && (forall i | 0 <= i < |cfg.username| :: NameStart(cfg.username[i]) || cfg.username[i] in "_.-")
    && 12 <= |cfg.password| <= 1024
    && cfg.locale in {"en", "fa"}
  }

  datatype Stage =
    | Counting(plan: Plan)
    | Creating(plan: Plan)
    | Created(plan: Plan)
    | NotCreated(plan: Plan)
    | Refused

  /** An account, with the start that made it if a start did. */
  datatype Account = Account(password: string, admin: bool, mustChange: bool, maker: Option<Process>)

  datatype Notice = Notice(p: Process, username: string, password: string)

  datatype World = World(users: map<string, Account>, stages: map<Process, Stage>, console: seq<Notice>, done: set<Process>)

  datatype Event =
    | Launch(p: Process, env: Environment, generated: string)
    | Count(p: Process)
    | Create(p: Process)
    | Announce(p: Process)
    | AddUser(username: string, account: Account)

  function Next(w: World, e: Event): World {
    if e.AddUser? then
      // An account made by any other path; usernames are unique in the table.
      if e.username in w.users || e.account.maker.Some? then w else w.(users := w.users[e.username := e.account])
    else if e.Launch? then
      if e.p in w.stages then w else w.(stages := w.stages[e.p := Counting(PlanFor(e.env, e.generated))])
    else if e.p !in w.stages then w
    else
      var stage := w.stages[e.p];
      match e
      case Count(p) =>
        if !stage.Counting? then w
        else if w.users != map[] || !stage.plan.present then w.(stages := w.stages[p := NotCreated(stage.plan)])
        else w.(stages := w.stages[p := if Validates(stage.plan.cfg) then Creating(stage.plan) else Refused])
      case Create(p) =>
        if !stage.Creating? then w
        else
          var cfg := stage.plan.cfg;
          if cfg.username in w.users then w.(stages := w.stages[p := NotCreated(stage.plan)])
          else w.(users := w.users[cfg.username := Account(cfg.password, true, true, Some(p))], stages := w.stages[p := Created(stage.plan)])
      case Announce(p) =>
        if !stage.Created? || !stage.plan.minted || p in w.done then w
        else w.(console := w.console + [Notice(p, stage.plan.cfg.username, stage.plan.cfg.password)], done := w.done + {p})
      case _ => w
  }

  ghost function Exec(w: World, es: seq<Event>): World
    decreases |es|
  {
    if es == [] then w else Next(Exec(w, es[..|es| - 1]), es[|es| - 1])
  }

  ghost predicate Reports(w: World, p: Process) { p in w.stages && w.stages[p].Created? }

  ghost predicate Owns(w: World, p: Process) {
    && Reports(w, p)
    && var cfg := w.stages[p].plan.cfg;
       cfg.username in w.users && w.users[cfg.username] == Account(cfg.password, true, true, Some(p))
  }

  /** A shown notice is the start's own account, shown once, and only with a generated password. */
  ghost predicate Justified(w: World, n: Notice) {
    && n.p in w.done && Owns(w, n.p) && w.stages[n.p].plan.minted
    && n.username == w.stages[n.p].plan.cfg.username && n.password == w.stages[n.p].plan.cfg.password
  }

  ghost predicate Inv(w: World) {
    && (forall p | Reports(w, p) :: Owns(w, p))
    && (forall i | 0 <= i < |w.console| :: Justified(w, w.console[i]))
    && forall i, j | 0 <= i < j < |w.console| :: w.console[i].p != w.console[j].p
  }

  lemma StepKeepsOwners(w: World, e: Event, p: Process)
    requires Owns(w, p)
    ensures Owns(Next(w, e), p) && Next(w, e).stages[p] == w.stages[p]
  {
    hide Validates;
    hide PlanFor;
  }

  lemma StepKeepsInv(w: World, e: Event)
    requires Inv(w)
    ensures Inv(Next(w, e))
  {
    hide Validates;
    hide PlanFor;
    var v := Next(w, e);
    forall p | Reports(v, p) ensures Owns(v, p) { if Reports(w, p) { StepKeepsOwners(w, e, p); } }
    forall i | 0 <= i < |w.console| ensures Justified(v, w.console[i]) {
      assert Justified(w, w.console[i]);
      StepKeepsOwners(w, e, w.console[i].p);
    }
  }

  ghost function Fresh(users: map<string, Account>): World { World(users, map[], [], {}) }

  lemma {:induction false} RunKeepsInv(users: map<string, Account>, es: seq<Event>)
    ensures Inv(Exec(Fresh(users), es))
    decreases |es|
  {
    if es != [] {
      RunKeepsInv(users, es[..|es| - 1]);
      StepKeepsInv(Exec(Fresh(users), es[..|es| - 1]), es[|es| - 1]);
    }
  }

  /** Two starts that both report the account made were configured with different usernames. */
  lemma OneCreatorPerName(users: map<string, Account>, es: seq<Event>, p: Process, q: Process)
    requires var w := Exec(Fresh(users), es); Reports(w, p) && Reports(w, q)
    requires var w := Exec(Fresh(users), es); w.stages[p].plan.cfg.username == w.stages[q].plan.cfg.username
    ensures p == q
  {
    RunKeepsInv(users, es);
    var w := Exec(Fresh(users), es);
    assert Owns(w, p) && Owns(w, q);
  }

  /** A shown password is the stored account's, was generated by that very start, and is shown by it once. */
  lemma NoticesAreTrue(users: map<string, Account>, es: seq<Event>, i: nat)
    requires i < |Exec(Fresh(users), es).console|
    ensures var w := Exec(Fresh(users), es); var n := w.console[i];
            && n.username in w.users
            && w.users[n.username] == Account(n.password, true, true, Some(n.p))
            && Reports(w, n.p) && w.stages[n.p].plan.minted
            && forall j | 0 <= j < |w.console| && j != i :: w.console[j].p != n.p && w.console[j].username != n.username
  {
    RunKeepsInv(users, es);
    var w := Exec(Fresh(users), es);
    assert Justified(w, w.console[i]);
    forall j | 0 <= j < |w.console| && j != i
      ensures w.console[j].p != w.console[i].p && w.console[j].username != w.console[i].username
    {
      assert Justified(w, w.console[j]);
    }
  }

  /** On a table that already has an account no start makes one or shows a password. */
  lemma {:induction false} PopulatedIsLeftAlone(users: map<string, Account>, es: seq<Event>, p: Process)
    requires users != map[]
    ensures !Reports(Exec(Fresh(users), es), p) && Exec(Fresh(users), es).console == []
    ensures p in Exec(Fresh(users), es).stages ==> !Exec(Fresh(users), es).stages[p].Creating?
    ensures Exec(Fresh(users), es).users != map[]
    decreases |es|
  {
    hide Validates;
    hide PlanFor;
    if es != [] {
      var front, e := es[..|es| - 1], es[|es| - 1];
      PopulatedIsLeftAlone(users, front, p);
      if !e.AddUser? { PopulatedIsLeftAlone(users, front, e.p); }
      var w := Exec(Fresh(users), front);
      var name :| name in w.users;
      assert name in Next(w, e).users;
    }
  }

  // ----- when two starts can both make an account

  /** The state in which two starts have launched with these plans and nothing else happened. */
  ghost function Pair(p: Plan, q: Plan): World { World(map[], map[0 := Counting(p), 1 := Counting(q)], [], {}) }

  ghost predicate BothCreate(p: Plan, q: Plan) {
    exists es :: Reports(Exec(Pair(p, q), es), 0) && Reports(Exec(Pair(p, q), es), 1)
  }

  /** A start keeps its plan, and gets to create only with a valid one. */
  ghost predicate Follows(w: World, x: Process, plan: Plan) {
    && x in w.stages
    && (w.stages[x].Refused? || w.stages[x].plan == plan)
    && (w.stages[x].Creating? || w.stages[x].Created? ==> plan.present && Validates(plan.cfg))
  }

  lemma StepFollows(w: World, e: Event, x: Process, plan: Plan)
    requires Follows(w, x, plan)
    ensures Follows(Next(w, e), x, plan)
  {
    hide Validates;
    hide PlanFor;
  }

  lemma {:induction false} PairKeeps(p: Plan, q: Plan, es: seq<Event>)
    ensures Inv(Exec(Pair(p, q), es)) && Follows(Exec(Pair(p, q), es), 0, p) && Follows(Exec(Pair(p, q), es), 1, q)
    decreases |es|
  {
    hide Validates;
    hide PlanFor;
    if es != [] {
      var w, e := Exec(Pair(p, q), es[..|es| - 1]), es[|es| - 1];
      PairKeeps(p, q, es[..|es| - 1]);
      StepKeepsInv(w, e);
      StepFollows(w, e, 0, p);
      StepFollows(w, e, 1, q);
    }
  }

  lemma TwoSteps(w: World, es: seq<Event>, e: Event, f: Event)
    ensures Exec(w, es + [e, f]) == Next(Next(Exec(w, es), e), f)
  {
    hide Next;
    assert (es + [e, f])[..|es| + 1] == es + [e];
    assert (es + [e])[..|es|] == es;
  }

  /** Both count an empty table before either creates. */
  lemma RaceCreates(p: Plan, q: Plan)
    requires p.present && q.present && Validates(p.cfg) && Validates(q.cfg)
    requires p.cfg.username != q.cfg.username
    ensures var w := Next(Next(Next(Next(Pair(p, q), Count(0)), Count(1)), Create(0)), Create(1));
            Reports(w, 0) && Reports(w, 1)
  {
    hide Validates;
    hide PlanFor;
    var w2 := Next(Next(Pair(p, q), Count(0)), Count(1));
    assert w2 == World(map[], map[0 := Creating(p), 1 := Creating(q)], [], {});
  }

  lemma {:induction false} RaceSchedule(p: Plan, q: Plan)
    requires p.present && q.present && Validates(p.cfg) && Validates(q.cfg)
    requires p.cfg.username != q.cfg.username
    ensures BothCreate(p, q)
  {
    hide Validates;
    hide Next;
    hide Reports;
    RaceCreates(p, q);
    TwoSteps(Pair(p, q), [], Count(0), Count(1));
    TwoSteps(Pair(p, q), [] + [Count(0), Count(1)], Create(0), Create(1));
  }

  /**
   Two starts on an empty table can both make an administrator exactly when both
   are configured with valid accounts under different usernames: the count and
   the insert are separate, and only the username keeps them apart.
   */
  lemma TwoAdminsIff(p: Plan, q: Plan)
    ensures BothCreate(p, q) <==>
              p.present && q.present && Validates(p.cfg) && Validates(q.cfg) && p.cfg.username != q.cfg.username
  {
    if BothCreate(p, q) {
      var es :| Reports(Exec(Pair(p, q), es), 0) && Reports(Exec(Pair(p, q), es), 1);
      PairKeeps(p, q, es);
      assert Owns(Exec(Pair(p, q), es), 0) && Owns(Exec(Pair(p, q), es), 1);
    } else if p.present && q.present && Validates(p.cfg) && Validates(q.cfg) && p.cfg.username != q.cfg.username {
      RaceSchedule(p, q);
    }
  }

  // ----- whose account it is

  /** The account a start's variables ask for: in home mode a missing name is "admin" and a missing password the generated one. */
  ghost predicate AsksFor(env: Environment, generated: string, username: string, password: string) {
    && ((env.username != "" && env.password != "") || env.home)
    && username == (if env.username == "" then "admin" else env.username)
    && password == if env.password == "" then generated else env.password
  }

  /** The account rules: name, password length and locale. */
  ghost predicate Acceptable(username: string, password: string, locale: string) {
    && 3 <= |username| <= 32 && 12 <= |password| <= 1024 && locale in ["", "en", "fa"]
    && username[0] !in "_.-"
    && forall c | c in username :: 'a' <= c <= 'z' || '0' <= c <= '9' || c in "_.-"
  }

  lemma PlanIs(env: Environment, generated: string)
    ensures var plan := PlanFor(env, generated);
            && (plan.present ==> AsksFor(env, generated, plan.cfg.username, plan.cfg.password))
            && (plan.present <==> (env.username != "" && env.password != "") || env.home)
            && (plan.minted <==> env.home && env.password == "")
            && (Validates(plan.cfg) <==> Acceptable(plan.cfg.username, plan.cfg.password, env.locale))
  {
    var cfg := PlanFor(env, generated).cfg;
    assert env.locale == "" || cfg.locale == env.locale;
    if Acceptable(cfg.username, cfg.password, env.locale) {
      forall i | 0 <= i < |cfg.username| ensures NameStart(cfg.username[i]) || cfg.username[i] in "_.-" {
        assert cfg.username[i] in cfg.username;
      }
      assert cfg.username[0] in cfg.username;
    }
  }

  /** The plan of p is the one of a launch of p in the run. */
  ghost predicate Launched(es: seq<Event>, p: Process, plan: Plan) {
    exists i | 0 <= i < |es| :: es[i].Launch? && es[i].p == p && plan == PlanFor(es[i].env, es[i].generated)
  }

  ghost predicate Planned(w: World, es: seq<Event>, p: Process) {
    p in w.stages && !w.stages[p].Refused? ==>
      && Launched(es, p, w.stages[p].plan)
      && (w.stages[p].Creating? || w.stages[p].Created? ==> w.stages[p].plan.present && Validates(w.stages[p].plan.cfg))
  }

  lemma {:induction false} RunIsPlanned(users: map<string, Account>, es: seq<Event>, p: Process)
    ensures Planned(Exec(Fresh(users), es), es, p)
    decreases |es|
  {
    hide Validates;
    hide PlanFor;
    if es != [] {
      var front, e := es[..|es| - 1], es[|es| - 1];
      var w := Exec(Fresh(users), front);
      RunIsPlanned(users, front, p);
      assert es[|es| - 1] == e;
      if p in w.stages && !w.stages[p].Refused? {
        var i :| 0 <= i < |front| && front[i].Launch? && front[i].p == p && w.stages[p].plan == PlanFor(front[i].env, front[i].generated);
        assert es[i] == front[i];
        assert Launched(es, p, w.stages[p].plan);
      }
    }
  }

  /**
   Over every run, a start that reports an account made was launched with
   variables that ask for exactly that account, the account meets the rules, and
   it is stored as an administrator's that must change its password.
   */
  lemma AccountsAreConfigured(users: map<string, Account>, es: seq<Event>, p: Process)
    returns (i: nat, username: string, password: string)
    requires Reports(Exec(Fresh(users), es), p)
    ensures i < |es| && es[i].Launch? && es[i].p == p
    ensures AsksFor(es[i].env, es[i].generated, username, password) && Acceptable(username, password, es[i].env.locale)
    ensures var w := Exec(Fresh(users), es); username in w.users && w.users[username] == Account(password, true, true, Some(p))
    ensures var w := Exec(Fresh(users), es);
            forall k | 0 <= k < |w.console| && w.console[k].p == p ::
              es[i].env.home && es[i].env.password == "" && w.console[k] == Notice(p, username, es[i].generated)
  {
    hide Validates;
    hide PlanFor;
    hide Acceptable;
    RunIsPlanned(users, es, p);
    RunKeepsInv(users, es);
    var w := Exec(Fresh(users), es);
    assert Owns(w, p);
    var plan := w.stages[p].plan;
    i :| 0 <= i < |es| && es[i].Launch? && es[i].p == p && plan == PlanFor(es[i].env, es[i].generated);
    username, password := plan.cfg.username, plan.cfg.password;
    PlanIs(es[i].env, es[i].generated);
    forall k | 0 <= k < |w.console| && w.console[k].p == p
      ensures es[i].env.home && es[i].env.password == "" && w.console[k] == Notice(p, username, es[i].generated)
    {
      assert Justified(w, w.console[k]);
    }
  }

  /**
   A start alone on an empty table makes the account its variables ask for
   exactly when it meets the rules, and shows its password exactly when it
   generated it.
   */
  lemma FirstStartCreates(p: Process, env: Environment, generated: string, username: string, password: string)
    requires AsksFor(env, generated, username, password)
    ensures var w := Next(Next(Next(Next(Fresh(map[]), Launch(p, env, generated)), Count(p)), Create(p)), Announce(p));
            if Acceptable(username, password, env.locale) then
              && w.users == map[username := Account(password, true, true, Some(p))]
              && w.console == if env.home && env.password == "" then [Notice(p, username, generated)] else []
            else w.users == map[] && w.console == []
  {
    hide Validates;
    hide PlanFor;
    hide Acceptable;
    PlanIs(env, generated);
    var plan := PlanFor(env, generated);
    var w1 := Next(Fresh(map[]), Launch(p, env, generated));
    assert w1.stages == map[p := Counting(plan)];
    var w2 := Next(w1, Count(p));
    assert w2.users == map[] && w2.console == [];
    assert w2.stages == map[p := if Validates(plan.cfg) then Creating(plan) else Refused];
  }
}
