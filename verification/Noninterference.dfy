/**
 What somebody can learn from the channel-scoped API over a whole run in which
 everybody else acts too (server/internal/httpserver, as modelled in Visibility):
 nothing about rooms they are not in, but for what the code shares across rooms or
 sends by name. A hidden step can take a key package, invite or remove the
 observer, or take a group id the observer then asks for; without these, the run
 gives the observer what it would if the hidden steps had never happened.
 */
module Noninterference {
  import opened Bytes
  import opened Visibility

  /** Somebody's request. */
  datatype Step = Step(user: User, channel: ChannelId, op: Op)

  ghost function Answered(decode: Decoder, s: State, x: Step): Outcome { Handle(decode, s, x.user, x.channel, x.op) }

  ghost function After(decode: Decoder, s: State, x: Step): State { Answered(decode, s, x).state }

  /** Another user's request in a room u is not in. */
  predicate Hidden(s: State, u: User, x: Step) { x.user != u && !Sees(s, u, x.channel) }

  // ----- one hidden step

  /** The step claims somebody's key package, or brings u into its room. */
  ghost predicate Reveals(s: State, u: User, x: Step) {
    && x.channel in s.rooms
    && var sc := ScopeOf(s, x.user, x.channel);
       TakesPackage(s.shared, sc, x.op) || Invites(s.shared, sc, x.op, u)
  }

  /** A hidden step keeps everything u can see exactly when it takes no key package and does not invite u. */
  lemma HiddenStepIsUnseenIff(decode: Decoder, s: State, u: User, x: Step)
    requires Hidden(s, u, x)
    ensures SameFor(u, s, After(decode, s, x)) <==> !Reveals(s, u, x)
  {
    hide Act;
    hide Holds;
    hide TakesPackage;
    if x.channel in s.rooms {
      var sc := ScopeOf(s, x.user, x.channel);
      var e, t := Act(decode, s.shared, sc, x.op), After(decode, s, x);
      ActTouches(decode, s.shared, sc, x.op);
      NamesNothing(s.shared, sc, x.op, u);
      assert Sees(t, u, x.channel) <==> Invites(s.shared, sc, x.op, u);
      forall c | c != x.channel ensures Sees(s, u, c) == Sees(t, u, c) && (Sees(s, u, c) ==> s.rooms[c] == t.rooms[c]) {}
    }
  }

  /** A claim and an invitation insert nothing under a unique key. */
  lemma NamesNothing(shared: Shared, sc: Scope, op: Op, u: User)
    ensures TakesPackage(shared, sc, op) || Invites(shared, sc, op, u) ==> Named(op).None?
  {
  }

  /** The step announces something to u by name. */
  ghost predicate Notifies(decode: Decoder, s: State, u: User, x: Step) {
    exists e | e in Answered(decode, s, x).events :: Reaches(e, u)
  }

  /** The step invites u, or removes u, who is not there: the source announces the removal to them all the same. */
  predicate Addresses(s: State, u: User, x: Step) {
    && x.channel in s.rooms
    && var sc := ScopeOf(s, x.user, x.channel);
       Invites(s.shared, sc, x.op, u) || Removes(sc, x.op, u)
  }

  /** A hidden step tells u something by name exactly when it invites or removes u. */
  lemma HiddenStepIsSilentIff(decode: Decoder, s: State, u: User, x: Step)
    requires Hidden(s, u, x)
    ensures Notifies(decode, s, u, x) <==> Addresses(s, u, x)
  {
    hide Act;
    hide Reaches;
    hide Touches;
    if x.channel in s.rooms {
      ActTells(decode, s.shared, ScopeOf(s, x.user, x.channel), x.op);
      ActInserts(decode, s.shared, ScopeOf(s, x.user, x.channel), x.op);
    }
  }

  lemma ActInserts(decode: Decoder, shared: Shared, sc: Scope, op: Op)
    ensures Act(decode, shared, sc, op).inserts.Some? ==> op.Send? || op.Upload? || op.CreateGroup?
  {
    hide Act;
    ActTouches(decode, shared, sc, op);
  }

  // ----- agreement on the unique keys that are asked for

  /** The states look alike to u, and hidden rooms hold the same of these keys. */
  ghost predicate SameOn(u: User, keys: set<Unique>, s: State, t: State) {
    SameFor(u, s, t) && forall k | k in keys :: HiddenHolds(s, u, k) == HiddenHolds(t, u, k)
  }

  /** What hidden rooms hold once a room u saw has become `room`. */
  lemma HoldsAfterSeen(s: State, u: User, ch: ChannelId, room: Room, shared: Shared, k: Unique)
    requires Sees(s, u, ch)
    ensures HiddenHolds(State(shared, s.rooms[ch := room]), u, k) <==>
              HiddenHolds(s, u, k) || (u !in room.members && k in Holds(room))
  {
    hide Holds;
    var t := State(shared, s.rooms[ch := room]);
    if c :| !Sees(s, u, c) && HeldIn(s, c, k) { assert !Sees(t, u, c) && HeldIn(t, c, k); }
    if u !in room.members && k in Holds(room) { assert !Sees(t, u, ch) && HeldIn(t, ch, k); }
    if c :| !Sees(t, u, c) && HeldIn(t, c, k) { assert c != ch ==> !Sees(s, u, c) && HeldIn(s, c, k); }
  }

  /** A hidden room that stays hidden and gains other keys only changes nothing hidden rooms hold of this one. */
  lemma HoldsAfterHidden(s: State, u: User, ch: ChannelId, room: Room, shared: Shared, k: Unique)
    requires ch in s.rooms && !Sees(s, u, ch) && u !in room.members && (k in Holds(room) <==> k in Holds(s.rooms[ch]))
    ensures HiddenHolds(State(shared, s.rooms[ch := room]), u, k) == HiddenHolds(s, u, k)
  {
    hide Holds;
    var t := State(shared, s.rooms[ch := room]);
    if c :| !Sees(s, u, c) && HeldIn(s, c, k) { assert !Sees(t, u, c) && HeldIn(t, c, k); }
    if c :| !Sees(t, u, c) && HeldIn(t, c, k) { assert !Sees(s, u, c) && HeldIn(s, c, k); }
  }

  lemma HiddenStepKeeps(decode: Decoder, s: State, u: User, keys: set<Unique>, x: Step)
    requires Hidden(s, u, x) && !Reveals(s, u, x) && (Named(x.op).Some? ==> Named(x.op).value !in keys)
    ensures SameOn(u, keys, s, After(decode, s, x))
  {
    hide Act;
    hide Holds;
    hide TakesPackage;
    hide HiddenHolds;
    HiddenStepIsUnseenIff(decode, s, u, x);
    if x.channel in s.rooms {
      var sc := ScopeOf(s, x.user, x.channel);
      var e := Act(decode, s.shared, sc, x.op);
      ActTouches(decode, s.shared, sc, x.op);
      forall k | k in keys ensures HiddenHolds(After(decode, s, x), u, k) == HiddenHolds(s, u, k) {
        HoldsAfterHidden(s, u, x.channel, e.room, e.shared, k);
      }
    }
  }

  /** A step u can see, from two states that agree, is seen alike and leaves them agreeing. */
  lemma SeenStepKeeps(decode: Decoder, s: State, t: State, u: User, keys: set<Unique>, x: Step)
    requires SameOn(u, keys, s, t) && !Hidden(s, u, x) && (Named(x.op).Some? ==> Named(x.op).value in keys)
    ensures AlikeFor(u, Answered(decode, s, x), Answered(decode, t, x))
    ensures SameOn(u, keys, After(decode, s, x), After(decode, t, x))
  {
    hide Act;
    hide Holds;
    hide SeenHolds;
    hide HiddenHolds;
    hide TakesPackage;
    assert Sees(s, u, x.channel) == Sees(t, u, x.channel);
    RequestIsBlind(decode, s, t, u, x.user, x.channel, x.op);
    if !Sees(s, u, x.channel) {
      StrangerInserts(decode, s, u, x.channel, x.op);
      StrangerLearnsNothing(decode, s, u, x.channel, x.op);
      StrangerLearnsNothing(decode, t, u, x.channel, x.op);
    } else {
      var sc := ScopeOf(s, x.user, x.channel);
      var e := Act(decode, s.shared, sc, x.op);
      ActTouches(decode, s.shared, sc, x.op);
      assert ScopeOf(t, x.user, x.channel) == sc;
      if e.inserts.Some? {
        TakenSomewhere(s, u, e.inserts.value);
        TakenSomewhere(t, u, e.inserts.value);
        SeenAlike(s, t, u, e.inserts.value);
      }
      forall k | k in keys ensures HiddenHolds(After(decode, s, x), u, k) == HiddenHolds(After(decode, t, x), u, k) {
        HoldsAfterSeen(s, u, x.channel, e.room, e.shared, k);
        HoldsAfterSeen(t, u, x.channel, e.room, e.shared, k);
      }
    }
  }

  // ----- whole runs

  ghost function Exec(decode: Decoder, s: State, xs: seq<Step>): State
    decreases |xs|
  {
    if xs == [] then s else Exec(decode, After(decode, s, xs[0]), xs[1..])
  }

  /** What u gets of a step: the answer if it is u's own, and the announcements u may receive. */
  datatype Glimpse = Glimpse(answer: Option<Response>, events: seq<Event>)

  /** The announcements sent to u by name. */
  function ByName(events: seq<Event>, u: User): seq<Event> {
    if events == [] then [] else (if Reaches(events[0], u) then [events[0]] else []) + ByName(events[1..], u)
  }

  ghost function GlimpseOf(decode: Decoder, s: State, u: User, x: Step): seq<Glimpse> {
    var o := Answered(decode, s, x);
    if Hidden(s, u, x) then (if ByName(o.events, u) == [] then [] else [Glimpse(None, ByName(o.events, u))])
    else [Glimpse(if x.user == u then Some(o.response) else None, o.events)]
  }

  /** Everything u gets of a run. */
  ghost function View(decode: Decoder, s: State, u: User, xs: seq<Step>): seq<Glimpse>
    decreases |xs|
  {
    if xs == [] then []
    else GlimpseOf(decode, s, u, xs[0]) + View(decode, After(decode, s, xs[0]), u, xs[1..])
  }

  /** The run without its hidden steps. */
  ghost function Purged(decode: Decoder, s: State, u: User, xs: seq<Step>): seq<Step>
    decreases |xs|
  {
    if xs == [] then []
    else (if Hidden(s, u, xs[0]) then [] else [xs[0]]) + Purged(decode, After(decode, s, xs[0]), u, xs[1..])
  }

  /** No hidden step claims a key package, invites or removes u, or names one of `keys`; the other steps name no other key. */
  ghost predicate Quiet(decode: Decoder, s: State, u: User, keys: set<Unique>, xs: seq<Step>)
    decreases |xs|
  {
    xs != [] ==>
      && (if Hidden(s, u, xs[0]) then !Reveals(s, u, xs[0]) && !Addresses(s, u, xs[0]) && (Named(xs[0].op).Some? ==> Named(xs[0].op).value !in keys)
          else Named(xs[0].op).Some? ==> Named(xs[0].op).value in keys)
      && Quiet(decode, After(decode, s, xs[0]), u, keys, xs[1..])
  }

  lemma SameOnTrans(u: User, keys: set<Unique>, a: State, s: State, t: State)
    requires SameOn(u, keys, s, a) && SameOn(u, keys, s, t)
    ensures SameOn(u, keys, a, t)
  {
    hide HiddenHolds;
    forall ch ensures Sees(a, u, ch) == Sees(t, u, ch) && (Sees(a, u, ch) ==> a.rooms[ch] == t.rooms[ch]) {
      assert Sees(s, u, ch) == Sees(t, u, ch);
    }
  }

  /**
   From states that agree, a quiet run gives u what its purged run gives, step for
   step, and leaves states that agree; in the purged run nothing is hidden.
   */
  lemma {:induction false} PurgedRunLooksAlike(decode: Decoder, s: State, t: State, u: User, keys: set<Unique>, xs: seq<Step>)
    requires SameOn(u, keys, s, t) && Quiet(decode, s, u, keys, xs)
    ensures View(decode, s, u, xs) == View(decode, t, u, Purged(decode, s, u, xs))
    ensures SameOn(u, keys, Exec(decode, s, xs), Exec(decode, t, Purged(decode, s, u, xs)))
    ensures Purged(decode, t, u, Purged(decode, s, u, xs)) == Purged(decode, s, u, xs)
    decreases |xs|
  {
    hide SameOn;
    hide Reveals;
    hide Addresses;
    hide Hidden;
    hide After;
    hide GlimpseOf;
    if xs != [] {
      var x, rest := xs[0], xs[1..];
      var s' := After(decode, s, x);
      HiddenAlike(s, t, u, keys, x);
      if Hidden(s, u, x) {
        HiddenStepKeeps(decode, s, u, keys, x);
        HiddenIsUnseen(decode, s, u, x);
        SameOnTrans(u, keys, s', s, t);
        PurgedRunLooksAlike(decode, s', t, u, keys, rest);
        assert Purged(decode, s, u, xs) == Purged(decode, s', u, rest);
        assert View(decode, s, u, xs) == View(decode, s', u, rest);
      } else {
        SeenStepKeeps(decode, s, t, u, keys, x);
        GlimpsedAlike(decode, s, t, u, x);
        var later := Purged(decode, s', u, rest);
        PurgedRunLooksAlike(decode, s', After(decode, t, x), u, keys, rest);
        assert ([x] + later)[1..] == later;
      }
    }
  }

  lemma HiddenAlike(s: State, t: State, u: User, keys: set<Unique>, x: Step)
    requires SameOn(u, keys, s, t)
    ensures Hidden(s, u, x) == Hidden(t, u, x)
  {
    assert Sees(s, u, x.channel) == Sees(t, u, x.channel);
  }

  lemma GlimpsedAlike(decode: Decoder, s: State, t: State, u: User, x: Step)
    requires AlikeFor(u, Answered(decode, s, x), Answered(decode, t, x)) && !Hidden(s, u, x) && !Hidden(t, u, x)
    ensures GlimpseOf(decode, s, u, x) == GlimpseOf(decode, t, u, x) && |GlimpseOf(decode, s, u, x)| == 1
  {
    hide Answered;
  }

  lemma HiddenIsUnseen(decode: Decoder, s: State, u: User, x: Step)
    requires Hidden(s, u, x) && !Addresses(s, u, x)
    ensures GlimpseOf(decode, s, u, x) == []
  {
    hide Answered;
    HiddenStepIsSilentIff(decode, s, u, x);
    NobodyByName(Answered(decode, s, x).events, u);
  }

  lemma {:induction false} NobodyByName(events: seq<Event>, u: User)
    requires forall e | e in events :: !Reaches(e, u)
    ensures ByName(events, u) == []
  {
    if events != [] { NobodyByName(events[1..], u); }
  }

  /** On every quiet run u's answers are those of the run in which the hidden steps never happened. */
  lemma HiddenStepsDoNotShow(decode: Decoder, s: State, u: User, keys: set<Unique>, xs: seq<Step>)
    requires Quiet(decode, s, u, keys, xs)
    ensures View(decode, s, u, xs) == View(decode, s, u, Purged(decode, s, u, xs))
  {
    PurgedRunLooksAlike(decode, s, s, u, keys, xs);
  }

  /**
   Two worlds that differ only in rooms u is not in, with different hidden steps in
   each and the same other steps: u gets the same of both, to the end.
   */
  lemma RunsAreIndistinguishable(
      decode: Decoder, s: State, t: State, u: User, keys: set<Unique>, xs: seq<Step>, ys: seq<Step>)
    requires SameOn(u, keys, s, t) && Quiet(decode, s, u, keys, xs) && Quiet(decode, t, u, keys, ys)
    requires Purged(decode, s, u, xs) == Purged(decode, t, u, ys)
    ensures View(decode, s, u, xs) == View(decode, t, u, ys)
    ensures SameOn(u, keys, Exec(decode, s, xs), Exec(decode, t, ys))
  {
    hide Quiet;
    hide View;
    hide Purged;
    hide Exec;
    var ps := Purged(decode, s, u, xs);
    PurgedRunLooksAlike(decode, s, t, u, keys, xs);
    PurgedRunLooksAlike(decode, t, t, u, keys, ys);
    Closing(u, keys, Exec(decode, s, xs), Exec(decode, t, ps), Exec(decode, t, ys));
  }

  lemma Closing(u: User, keys: set<Unique>, a: State, m: State, b: State)
    requires SameOn(u, keys, a, m) && SameOn(u, keys, b, m)
    ensures SameOn(u, keys, a, b)
  {
    hide HiddenHolds;
    forall ch ensures Sees(a, u, ch) == Sees(b, u, ch) && (Sees(a, u, ch) ==> a.rooms[ch] == b.rooms[ch]) {
      assert Sees(a, u, ch) == Sees(m, u, ch);
      assert Sees(b, u, ch) == Sees(m, u, ch);
    }
  }

  // ----- the package leak

  /**
   The condition on claims is needed: a claim in a room u is not in, of the last
   package of somebody u shares a room with, shows in u's own claim.
   */
  lemma PackageClaimShows(decode: Decoder, u: User, v: User, w: User, p: Blob) returns (s: State, x: Step, mine: Step)
    requires u != 0 && v != 0 && w != 0 && u != v && u != w && v != w
    ensures Hidden(s, u, x) && mine.user == u && Sees(s, u, mine.channel)
    ensures Answered(decode, s, mine).response == Packages(map[0 := p], {})
    ensures Answered(decode, After(decode, s, x), mine).response == Packages(map[], {0})
  {
    hide Answered;
    hide Handed;
    hide Claimed;
    var full, spent := map[0 := Device(w, [], [p])], map[0 := Device(w, [], [])];
    OneDevice(w, p);
    s := State(Shared(map[], full, false, false), map[0 := EmptyRoom({u, w}), 1 := EmptyRoom({v, w})]);
    x, mine := Step(v, 1, ClaimPackages(Some(w))), Step(u, 0, ClaimPackages(Some(w)));
    ClaimAnswer(decode, s, mine, w);
    ClaimAnswer(decode, s, x, w);
    ClaimAnswer(decode, After(decode, s, x), mine, w);
  }

  lemma OneDevice(w: User, p: Blob)
    ensures var full, spent := map[0 := Device(w, [], [p])], map[0 := Device(w, [], [])];
            && Claimed(full, w) == spent
            && Handed(full, w) == Packages(map[0 := p], {}) && Handed(spent, w) == Packages(map[], {0})
  {
    assert [p][1..] == [];
  }

  lemma ClaimAnswer(decode: Decoder, s: State, x: Step, w: User)
    requires x.op == ClaimPackages(Some(w)) && w != 0 && Sees(s, x.user, x.channel)
    requires s.rooms[x.channel].e2ee && w in s.rooms[x.channel].members
    ensures Answered(decode, s, x) ==
              Outcome(State(s.shared.(devices := Claimed(s.shared.devices, w)), s.rooms), Handed(s.shared.devices, w), [])
  {
    hide Handed;
    hide Claimed;
    hide ActOnChannel;
    hide ActOnMessages;
    assert s.rooms[x.channel := s.rooms[x.channel]] == s.rooms;
  }

  /**
   And so is the condition on removals: removing somebody who never was in the room
   changes nothing and tells them the room's id.
   */
  lemma RemovalShows(decode: Decoder, u: User, v: User) returns (s: State, x: Step)
    requires u != v
    ensures Hidden(s, u, x) && x.op == RemoveMember(u) && SameFor(u, s, After(decode, s, x))
    ensures Notifies(decode, s, u, x)
  {
    hide Answered;
    hide TakesPackage;
    var room := EmptyRoom({v}).(creator := Some(v));
    s, x := State(Shared(map[], map[], false, false), map[1 := room]), Step(v, 1, RemoveMember(u));
    assert room.members != {u};
    NoClaim(s.shared, ScopeOf(s, v, 1), x.op);
    HiddenStepIsUnseenIff(decode, s, u, x);
    HiddenStepIsSilentIff(decode, s, u, x);
  }
}
