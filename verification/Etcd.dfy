/** adapters/etcd/retention.go: one keeper loop that lists the server's leases and
    refreshes each in turn, against their times to live. */
module Etcd {
  import opened Ordering
  import opened Wrappers

  type LeaseId = int

  datatype Lease = Lease(ttl: int, expiry: int)

  /** What is known of the sandbox: at most n leases are listed at once, a refresh takes
      at most c and the server counts it at most e before the client returns, a listing
      takes at most l, the pause at most s; and whether the watched lease's place in the
      listing can only move up. */
  datatype Config = Config(n: nat, c: nat, e: nat, l: nat, s: nat, stable: bool)

  /** What the keeper is at: waiting for the listing, refreshing the head of the queue,
      or pausing. */
  datatype Phase =
    | Listing(since: int, listed: Option<seq<LeaseId>>)
    | Refreshing(queue: seq<LeaseId>, since: int, counted: Option<int>)
    | Pausing(since: int)

  /** rank is the watched lease's place in the last listing, counted from one. */
  datatype State = State(now: int, leases: map<LeaseId, Lease>, phase: Phase, rank: nat)

  datatype Event =
    | Tick(delay: nat)
    | Expire(id: LeaseId)
    | Revoke(id: LeaseId)            // by a check
    | Grant(id: LeaseId, ttl: int)   // by a check
    | Snapshot(ids: seq<LeaseId>)    // the server answers `lease list`
    | ListingDone
    | Refresh                        // the server counts the keep-alive
    | RefreshDone
    | PauseDone

  /** The time k consecutive calls take at most. */
  function Calls(c: nat, k: nat): nat {
    if k == 0 then 0 else Calls(c, k - 1) + c
  }

  lemma {:induction false} CallsAdd(c: nat, a: nat, b: nat)
    ensures Calls(c, a + b) == Calls(c, a) + Calls(c, b)
  {
    if b > 0 { CallsAdd(c, a, b - 1); }
  }

  lemma CallsMonotone(c: nat, a: nat, b: nat)
    requires a <= b
    ensures Calls(c, a) <= Calls(c, b)
  {
    CallsAdd(c, a, b - a);
  }

  function Min(a: int, b: int): int {
    if a < b then a else b
  }

  /** The instant the phase's running step is over by. */
  function Deadline(cfg: Config, phase: Phase): int {
    match phase
    case Listing(since, _) => since + cfg.l
    case Refreshing(_, since, None) => since + cfg.c
    case Refreshing(_, since, Some(at)) => Min(since + cfg.c, at + cfg.e)
    case Pausing(since) => since + cfg.s
  }

  ghost predicate ListingOf(cfg: Config, s: State, watched: LeaseId, ids: seq<LeaseId>) {
    && |ids| <= cfg.n && Distinct(ids)
    && (forall id :: id in ids <==> id in s.leases)
    && (cfg.stable && watched in ids ==> Place(ids, watched) <= s.rank)
  }

  /** The place of an element, counted from one. */
  function Place(ids: seq<LeaseId>, id: LeaseId): (p: nat)
    ensures id in ids ==> 1 <= p <= |ids| && ids[p - 1] == id
  {
    if ids == [] then 0 else if ids[0] == id then 1 else 1 + Place(ids[1..], id)
  }

  ghost predicate Enabled(cfg: Config, watched: LeaseId, s: State, e: Event) {
    match e
    case Tick(delay) => s.now + delay <= Deadline(cfg, s.phase)
    case Expire(id) => id in s.leases && s.leases[id].expiry <= s.now
    case Revoke(id) => id in s.leases && id != watched
    case Grant(id, ttl) => id !in s.leases && id != watched
    case Snapshot(ids) => s.phase.Listing? && s.phase.listed.None? && ListingOf(cfg, s, watched, ids)
    case ListingDone => s.phase.Listing? && s.phase.listed.Some?
    case Refresh => s.phase.Refreshing? && s.phase.counted.None?
    case RefreshDone => s.phase.Refreshing? && s.phase.counted.Some?
    case PauseDone => s.phase.Pausing?
  }

  /** The loop body's next call, or its pause. */
  function Next(queue: seq<LeaseId>, now: int): Phase {
    if queue == [] then Pausing(now) else Refreshing(queue, now, None)
  }

  function Refreshed(leases: map<LeaseId, Lease>, id: LeaseId, now: int): map<LeaseId, Lease> {
    if id in leases then leases[id := leases[id].(expiry := now + leases[id].ttl)] else leases
  }

  ghost predicate Sound(s: State) {
    s.phase.Refreshing? ==> s.phase.queue != []
  }

  ghost function Apply(watched: LeaseId, s: State, e: Event): State
    requires Sound(s)
    requires e.ListingDone? ==> s.phase.Listing? && s.phase.listed.Some?
    requires e.Snapshot? ==> s.phase.Listing?
    requires e.Refresh? || e.RefreshDone? ==> s.phase.Refreshing?
  {
    match e
    case Tick(delay) => s.(now := s.now + delay)
    case Expire(id) => s.(leases := s.leases - {id})
    case Revoke(id) => s.(leases := s.leases - {id})
    case Grant(id, ttl) => s.(leases := s.leases[id := Lease(ttl, s.now + ttl)])
    case Snapshot(ids) =>
      s.(phase := s.phase.(listed := Some(ids)), rank := if watched in ids then Place(ids, watched) else s.rank)
    case ListingDone => s.(phase := Next(s.phase.listed.value, s.now))
    case Refresh =>
      s.(leases := Refreshed(s.leases, s.phase.queue[0], s.now), phase := s.phase.(counted := Some(s.now)))
    case RefreshDone => s.(phase := Next(s.phase.queue[1..], s.now))
    case PauseDone => s.(phase := Listing(s.now, None))
  }

  /** The state a run leads to, if every event of it could happen. */
  ghost function After(cfg: Config, watched: LeaseId, s: State, events: seq<Event>): (t: Option<State>)
    requires Sound(s)
    ensures t.Some? ==> Sound(t.value)
  {
    if events == [] then Some(s)
    else
      match After(cfg, watched, s, events[..|events| - 1])
      case None => None
      case Some(t) =>
        var e := events[|events| - 1];
        if Enabled(cfg, watched, t, e) then Some(Apply(watched, t, e)) else None
  }

  /** Leases come by a grant and go by expiry or a check's revocation alone; no event
      changes a time to live, and none but a lease's own refresh its expiry. */
  lemma LeasesComeAndGo(cfg: Config, watched: LeaseId, s: State, e: Event, id: LeaseId)
    requires Sound(s) && Enabled(cfg, watched, s, e)
    ensures var t := Apply(watched, s, e);
            && (id in t.leases && id !in s.leases <==> e.Grant? && e.id == id)
            && (id in s.leases && id !in t.leases <==> id in s.leases && (e == Expire(id) || e == Revoke(id)))
            && (id in s.leases && id in t.leases ==>
                  && t.leases[id].ttl == s.leases[id].ttl
                  && t.leases[id].expiry == if e.Refresh? && s.phase.queue[0] == id then s.now + s.leases[id].ttl else s.leases[id].expiry)
  {
  }

  // Why a watched lease lives.

  /** Its place in the next listing is at most this. */
  function NextPlace(cfg: Config, s: State): nat {
    if cfg.stable then s.rank else cfg.n
  }

  /** Refreshes begun between two refreshes of one lease. */
  function Between(cfg: Config): nat {
    if cfg.stable || cfg.n == 0 then cfg.n else 2 * cfg.n - 1
  }

  /** How far apart two refreshes of one lease can be. */
  function Bound(cfg: Config): nat {
    cfg.e + Calls(cfg.c, Between(cfg)) + cfg.s + cfg.l
  }

  /** The calls still ahead of this sweep's next one. */
  function Waiting(phase: Phase): seq<LeaseId>
    requires phase.Refreshing? && phase.queue != []
  {
    if phase.counted.None? then phase.queue else phase.queue[1..]
  }

  /** The watched lease is refreshed by then at the latest. */
  ghost function Due(cfg: Config, s: State, watched: LeaseId): int
    requires Sound(s)
  {
    var over, next := Deadline(cfg, s.phase), Calls(cfg.c, NextPlace(cfg, s));
    match s.phase
    case Pausing(_) => over + cfg.l + next
    case Listing(_, None) => over + next
    case Listing(_, Some(ids)) => over + Calls(cfg.c, Place(ids, watched))
    case Refreshing(queue, _, counted) =>
      if watched !in Waiting(s.phase) then over + Calls(cfg.c, |queue| - 1) + cfg.s + cfg.l + next
      else if counted.None? then over + Calls(cfg.c, Place(queue, watched) - 1)
      else over + Calls(cfg.c, Place(queue[1..], watched))
  }

  /** A queue that leaves no more refreshes to come after the watched lease's than the
      bound counts. */
  ghost predicate Spaced(cfg: Config, s: State, watched: LeaseId, queue: seq<LeaseId>) {
    Distinct(queue) && (watched in queue ==> |queue| - Place(queue, watched) + NextPlace(cfg, s) <= Between(cfg))
  }

  /** The watched lease is there and the keeper's next refresh of it is placed. */
  ghost predicate Steady(cfg: Config, watched: LeaseId, ttl: int, s: State) {
    && Sound(s) && s.rank <= cfg.n && s.now <= Deadline(cfg, s.phase)
    && (s.phase.Refreshing? ==> Spaced(cfg, s, watched, s.phase.queue))
    && (s.phase.Listing? && s.phase.listed.Some? ==>
          watched in s.phase.listed.value && Spaced(cfg, s, watched, s.phase.listed.value))
    && watched in s.leases && s.leases[watched].ttl == ttl
  }

  /** And that refresh comes before the lease expires. */
  ghost predicate Kept(cfg: Config, watched: LeaseId, ttl: int, s: State) {
    Steady(cfg, watched, ttl, s) && Due(cfg, s, watched) < s.leases[watched].expiry
  }

  /** The next refresh is put off no further, the lease left as it was. */
  ghost predicate Nears(cfg: Config, watched: LeaseId, ttl: int, s: State, t: State)
    requires Sound(s) && watched in s.leases
  {
    && Steady(cfg, watched, ttl, t) && t.leases[watched] == s.leases[watched]
    && Due(cfg, t, watched) <= Due(cfg, s, watched)
  }

  lemma DueAhead(cfg: Config, watched: LeaseId, ttl: int, s: State)
    requires Steady(cfg, watched, ttl, s)
    ensures s.now <= Deadline(cfg, s.phase) <= Due(cfg, s, watched)
  {
  }

  lemma PlaceOfTail(queue: seq<LeaseId>, id: LeaseId)
    requires queue != [] && id in queue && id != queue[0]
    ensures id in queue[1..] && Place(queue, id) == 1 + Place(queue[1..], id)
  {
  }

  predicate OwnTurn(s: State, watched: LeaseId) {
    s.phase.Refreshing? && s.phase.queue != [] && s.phase.queue[0] == watched
  }

  /** The watched lease's own refresh puts the next one off by the bound at most. */
  lemma OwnRefreshRenews(cfg: Config, watched: LeaseId, ttl: int, s: State)
    requires Steady(cfg, watched, ttl, s) && Enabled(cfg, watched, s, Refresh) && OwnTurn(s, watched)
    ensures var t := Apply(watched, s, Refresh);
            && Steady(cfg, watched, ttl, t) && t.leases[watched].expiry == s.now + ttl
            && Due(cfg, t, watched) <= s.now + Bound(cfg)
  {
    var queue := s.phase.queue;
    assert watched !in queue[1..];
    CallsAdd(cfg.c, |queue| - 1, NextPlace(cfg, s));
    CallsMonotone(cfg.c, |queue| - 1 + NextPlace(cfg, s), Between(cfg));
  }

  lemma OtherRefreshNears(cfg: Config, watched: LeaseId, ttl: int, s: State)
    requires Steady(cfg, watched, ttl, s) && Enabled(cfg, watched, s, Refresh) && !OwnTurn(s, watched)
    ensures Nears(cfg, watched, ttl, s, Apply(watched, s, Refresh))
  {
    if watched in s.phase.queue {
      PlaceOfTail(s.phase.queue, watched);
    }
  }

  lemma RefreshDoneNears(cfg: Config, watched: LeaseId, ttl: int, s: State)
    requires Steady(cfg, watched, ttl, s) && Enabled(cfg, watched, s, RefreshDone)
    ensures Nears(cfg, watched, ttl, s, Apply(watched, s, RefreshDone))
  {
    var queue := s.phase.queue;
    if watched in queue[1..] {
      assert queue[0] != watched;
      PlaceOfTail(queue, watched);
    }
  }

  lemma SnapshotNears(cfg: Config, watched: LeaseId, ttl: int, s: State, e: Event)
    requires Steady(cfg, watched, ttl, s) && e.Snapshot? && Enabled(cfg, watched, s, e)
    ensures Nears(cfg, watched, ttl, s, Apply(watched, s, e))
  {
    assert watched in e.ids;
    CallsMonotone(cfg.c, Place(e.ids, watched), NextPlace(cfg, s));
  }

  lemma ListingDoneNears(cfg: Config, watched: LeaseId, ttl: int, s: State)
    requires Steady(cfg, watched, ttl, s) && Enabled(cfg, watched, s, ListingDone)
    ensures Nears(cfg, watched, ttl, s, Apply(watched, s, ListingDone))
  {
  }

  lemma PauseDoneNears(cfg: Config, watched: LeaseId, ttl: int, s: State)
    requires Steady(cfg, watched, ttl, s) && Enabled(cfg, watched, s, PauseDone)
    ensures Nears(cfg, watched, ttl, s, Apply(watched, s, PauseDone))
  {
  }

  /** Other leases come and go, and time passes no further than the running step. */
  lemma OthersNear(cfg: Config, watched: LeaseId, ttl: int, s: State, e: Event)
    requires Steady(cfg, watched, ttl, s) && Enabled(cfg, watched, s, e) && e != Expire(watched)
    requires e.Tick? || e.Expire? || e.Revoke? || e.Grant?
    ensures Nears(cfg, watched, ttl, s, Apply(watched, s, e))
  {
    var t := Apply(watched, s, e);
    assert t.phase == s.phase && t.rank == s.rank;
    assert Due(cfg, t, watched) == Due(cfg, s, watched);
  }

  /** Nothing but its own refresh puts a watched lease's next refresh off. */
  lemma StepNears(cfg: Config, watched: LeaseId, ttl: int, s: State, e: Event)
    requires Steady(cfg, watched, ttl, s) && Enabled(cfg, watched, s, e)
    requires e != Expire(watched) && !(e.Refresh? && OwnTurn(s, watched))
    ensures Nears(cfg, watched, ttl, s, Apply(watched, s, e))
  {
    match e
    case Snapshot(_) => SnapshotNears(cfg, watched, ttl, s, e);
    case Refresh => OtherRefreshNears(cfg, watched, ttl, s);
    case RefreshDone => RefreshDoneNears(cfg, watched, ttl, s);
    case ListingDone => ListingDoneNears(cfg, watched, ttl, s);
    case PauseDone => PauseDoneNears(cfg, watched, ttl, s);
    case _ => OthersNear(cfg, watched, ttl, s, e);
  }

  lemma RefreshKeeps(cfg: Config, watched: LeaseId, ttl: int, s: State)
    requires Kept(cfg, watched, ttl, s) && Enabled(cfg, watched, s, Refresh) && Bound(cfg) < ttl
    ensures Kept(cfg, watched, ttl, Apply(watched, s, Refresh))
  {
    if OwnTurn(s, watched) {
      OwnRefreshRenews(cfg, watched, ttl, s);
    } else {
      OtherRefreshNears(cfg, watched, ttl, s);
    }
  }

  lemma StepKeeps(cfg: Config, watched: LeaseId, ttl: int, s: State, e: Event)
    requires Kept(cfg, watched, ttl, s) && Enabled(cfg, watched, s, e) && Bound(cfg) < ttl
    ensures Kept(cfg, watched, ttl, Apply(watched, s, e))
  {
    DueAhead(cfg, watched, ttl, s);
    if e.Refresh? {
      RefreshKeeps(cfg, watched, ttl, s);
    } else {
      StepNears(cfg, watched, ttl, s, e);
    }
  }

  /** The keeper starts by listing, and the watched lease is there. */
  ghost predicate Opens(cfg: Config, watched: LeaseId, ttl: int, s: State) {
    && s.phase == Listing(s.now, None) && s.rank == cfg.n
    && watched in s.leases && s.leases[watched].ttl == ttl
  }

  /** And outlives the first sweep. */
  ghost predicate Begins(cfg: Config, watched: LeaseId, ttl: int, s: State) {
    Opens(cfg, watched, ttl, s) && s.now + cfg.l + Calls(cfg.c, cfg.n) < s.leases[watched].expiry
  }

  // How far apart the refreshes of a lease are.

  /** When a run last refreshed the watched lease. */
  ghost function LastRefresh(cfg: Config, watched: LeaseId, start: State, events: seq<Event>): Option<int>
    requires Sound(start)
  {
    if events == [] then None
    else
      var init, e := events[..|events| - 1], events[|events| - 1];
      match After(cfg, watched, start, init)
      case None => None
      case Some(s) => if e.Refresh? && OwnTurn(s, watched) then Some(s.now) else LastRefresh(cfg, watched, start, init)
  }

  /** The next refresh is due within the bound of the last, the first within a listing and
      a sweep. */
  ghost predicate OnTime(cfg: Config, watched: LeaseId, ttl: int, start: State, s: State, last: Option<int>) {
    && Steady(cfg, watched, ttl, s)
    && match last
       case None => Due(cfg, s, watched) <= start.now + cfg.l + Calls(cfg.c, cfg.n)
       case Some(at) => Due(cfg, s, watched) <= at + Bound(cfg) && s.leases[watched].expiry == at + ttl
  }

  lemma {:induction false} RunOnTime(cfg: Config, watched: LeaseId, ttl: int, start: State, events: seq<Event>)
    requires Opens(cfg, watched, ttl, start) && Expire(watched) !in events
    requires After(cfg, watched, start, events).Some?
    ensures OnTime(cfg, watched, ttl, start, After(cfg, watched, start, events).value, LastRefresh(cfg, watched, start, events))
  {
    if events != [] {
      var init, e := events[..|events| - 1], events[|events| - 1];
      assert e in events && forall x :: x in init ==> x in events;
      RunOnTime(cfg, watched, ttl, start, init);
      var s := After(cfg, watched, start, init).value;
      if e.Refresh? && OwnTurn(s, watched) {
        OwnRefreshRenews(cfg, watched, ttl, s);
      } else {
        StepNears(cfg, watched, ttl, s, e);
      }
    }
  }

  /** Two successive refreshes of a lease that lives are no further apart than the bound,
      whatever its time to live: no moment of any run is further from the last one. */
  lemma RefreshesWithinBound(cfg: Config, watched: LeaseId, ttl: int, start: State, events: seq<Event>)
    requires Opens(cfg, watched, ttl, start) && Expire(watched) !in events
    requires After(cfg, watched, start, events).Some?
    ensures var now := After(cfg, watched, start, events).value.now;
            match LastRefresh(cfg, watched, start, events)
            case None => now <= start.now + cfg.l + Calls(cfg.c, cfg.n)
            case Some(at) => now <= at + Bound(cfg)
  {
    RunOnTime(cfg, watched, ttl, start, events);
    DueAhead(cfg, watched, ttl, After(cfg, watched, start, events).value);
  }

  // Why a watched lease is held.

  lemma {:induction false} RunKeeps(cfg: Config, watched: LeaseId, ttl: int, start: State, events: seq<Event>)
    requires Begins(cfg, watched, ttl, start) && Bound(cfg) < ttl
    requires After(cfg, watched, start, events).Some?
    ensures Kept(cfg, watched, ttl, After(cfg, watched, start, events).value)
  {
    if events != [] {
      var init, e := events[..|events| - 1], events[|events| - 1];
      RunKeeps(cfg, watched, ttl, start, init);
      StepKeeps(cfg, watched, ttl, After(cfg, watched, start, init).value, e);
    }
  }

  ghost predicate Reaches(cfg: Config, watched: LeaseId, start: State, s: State)
    requires Sound(start)
  {
    exists events :: After(cfg, watched, start, events) == Some(s)
  }

  /** No run of the keeper lets such a lease go. */
  ghost predicate Holds(cfg: Config, watched: LeaseId, ttl: int) {
    forall start, s {:trigger Reaches(cfg, watched, start, s)} ::
      Begins(cfg, watched, ttl, start) && Reaches(cfg, watched, start, s) ==> watched in s.leases
  }

  lemma LongLeasesHold(cfg: Config, watched: LeaseId, ttl: int)
    requires Bound(cfg) < ttl
    ensures Holds(cfg, watched, ttl)
  {
    forall start, s | Begins(cfg, watched, ttl, start) && Reaches(cfg, watched, start, s)
      ensures watched in s.leases
    {
      var events :| After(cfg, watched, start, events) == Some(s);
      RunKeeps(cfg, watched, ttl, start, events);
    }
  }

  // Why the bound is exact: the slowest run.

  lemma ReachStep(cfg: Config, watched: LeaseId, start: State, s: State, e: Event)
    requires Sound(start) && Reaches(cfg, watched, start, s) && Sound(s) && Enabled(cfg, watched, s, e)
    ensures Reaches(cfg, watched, start, Apply(watched, s, e)) && Sound(Apply(watched, s, e))
  {
    var events :| After(cfg, watched, start, events) == Some(s);
    assert (events + [e])[..|events|] == events;
    assert After(cfg, watched, start, events + [e]) == Some(Apply(watched, s, e));
  }

  lemma WaitStep(cfg: Config, watched: LeaseId, start: State, s: State, delay: nat, e: Event) returns (t: State)
    requires Sound(start) && Reaches(cfg, watched, start, s) && Sound(s)
    requires s.now + delay <= Deadline(cfg, s.phase) && Enabled(cfg, watched, s.(now := s.now + delay), e)
    ensures t == Apply(watched, s.(now := s.now + delay), e)
    ensures Reaches(cfg, watched, start, t) && Sound(t)
  {
    ReachStep(cfg, watched, start, s, Tick(delay));
    ReachStep(cfg, watched, start, s.(now := s.now + delay), e);
    t := Apply(watched, s.(now := s.now + delay), e);
  }

  /** The same leases, the watched one as it was. */
  ghost predicate Untouched(watched: LeaseId, s: State, t: State) {
    && (forall id :: id in s.leases <==> id in t.leases)
    && watched in s.leases && t.leases[watched] == s.leases[watched]
    && t.rank == s.rank
  }

  /** A call to another lease can take its full time. */
  lemma SlowCall(cfg: Config, watched: LeaseId, start: State, s: State) returns (t: State)
    requires Sound(start) && Reaches(cfg, watched, start, s) && Sound(s) && watched in s.leases
    requires s.phase.Refreshing? && s.phase.since == s.now && s.phase.counted.None? && s.phase.queue[0] != watched
    ensures Reaches(cfg, watched, start, t) && Sound(t) && Untouched(watched, s, t)
    ensures t.now == s.now + cfg.c && t.phase == Next(s.phase.queue[1..], t.now)
  {
    t := WaitStep(cfg, watched, start, s, cfg.c, Refresh);
    t := WaitStep(cfg, watched, start, t, 0, RefreshDone);
  }

  /** Every call to the first k leases of the queue can take its full time. */
  lemma {:induction false} SlowSweep(cfg: Config, watched: LeaseId, start: State, s: State, k: nat) returns (t: State)
    requires Sound(start) && Reaches(cfg, watched, start, s) && Sound(s) && watched in s.leases
    requires s.phase.Refreshing? && s.phase.since == s.now && s.phase.counted.None?
    requires k <= |s.phase.queue| && watched !in s.phase.queue[..k]
    ensures Reaches(cfg, watched, start, t) && Sound(t) && Untouched(watched, s, t)
    ensures t.now == s.now + Calls(cfg.c, k) && t.phase == Next(s.phase.queue[k..], t.now)
    decreases k
  {
    if k == 0 {
      t := s;
    } else {
      assert s.phase.queue[0] == s.phase.queue[..k][0];
      t := SlowCall(cfg, watched, start, s);
      if t.phase.Refreshing? {
        var rest := s.phase.queue[1..];
        assert rest[..k - 1] == s.phase.queue[..k][1..];
        assert rest[k - 1..] == s.phase.queue[k..];
        t := SlowSweep(cfg, watched, start, t, k - 1);
      }
    }
  }

  function Others(n: nat): seq<LeaseId> {
    seq(n, i requires 0 <= i < n => i + 1)
  }

  const WATCHED: LeaseId := 0

  predicate InHouse(n: nat, id: LeaseId) {
    0 <= id < n
  }

  /** n leases, the watched one about to be refreshed first. */
  ghost function FullHouse(cfg: Config, ttl: int): State
    requires cfg.n > 0
  {
    var first := cfg.l + Calls(cfg.c, cfg.n) + 1;
    State(0, map id | 0 <= id < cfg.n && InHouse(cfg.n, id) :: Lease(ttl, first), Listing(0, None), cfg.n)
  }

  lemma {:induction false} PlaceIs(ids: seq<LeaseId>, id: LeaseId, k: nat)
    requires k < |ids| && ids[k] == id && id !in ids[..k]
    ensures Place(ids, id) == k + 1
  {
    if k > 0 {
      assert ids[0] == ids[..k][0];
      assert ids[1..][..k - 1] == ids[..k][1..];
      PlaceIs(ids[1..], id, k - 1);
    }
  }

  lemma ListsFullHouse(cfg: Config, s: State, last: bool)
    requires cfg.n > 0 && (forall id :: id in s.leases <==> InHouse(cfg.n, id))
    requires cfg.stable ==> !last && s.rank >= 1
    ensures var others := Others(cfg.n - 1);
            ListingOf(cfg, s, WATCHED, if last then others + [WATCHED] else [WATCHED] + others)
  {
    var others := Others(cfg.n - 1);
    var ids := if last then others + [WATCHED] else [WATCHED] + others;
    forall id ensures id in ids <==> id in s.leases {
      if 0 < id < cfg.n { assert others[id - 1] == id; }
      assert id in ids <==> id in others || id == WATCHED;
    }
  }

  /** The watched lease is refreshed as early as its call allows. */
  lemma EarlyRefresh(cfg: Config, ttl: int) returns (t: State)
    requires cfg.n > 0 && cfg.e <= cfg.c
    ensures Begins(cfg, WATCHED, ttl, FullHouse(cfg, ttl)) && Reaches(cfg, WATCHED, FullHouse(cfg, ttl), t)
    ensures Sound(t) && (forall id :: id in t.leases <==> InHouse(cfg.n, id))
    ensures t.leases[WATCHED] == Lease(ttl, cfg.c - cfg.e + ttl) && t.rank == 1
    ensures t.now == cfg.c && t.phase == Next(Others(cfg.n - 1), t.now)
  {
    var start, ids := FullHouse(cfg, ttl), [WATCHED] + Others(cfg.n - 1);
    assert After(cfg, WATCHED, start, []) == Some(start);
    ListsFullHouse(cfg, start, false);
    t := WaitStep(cfg, WATCHED, start, start, 0, Snapshot(ids));
    t := WaitStep(cfg, WATCHED, start, t, 0, ListingDone);
    t := WaitStep(cfg, WATCHED, start, t, cfg.c - cfg.e, Refresh);
    t := WaitStep(cfg, WATCHED, start, t, cfg.e, RefreshDone);
    assert ids[1..] == Others(cfg.n - 1);
  }

  /** And everything after takes its time. */
  lemma SlowFirstSweep(cfg: Config, ttl: int) returns (t: State)
    requires cfg.n > 0 && cfg.e <= cfg.c
    ensures Begins(cfg, WATCHED, ttl, FullHouse(cfg, ttl)) && Reaches(cfg, WATCHED, FullHouse(cfg, ttl), t)
    ensures Sound(t) && (forall id :: id in t.leases <==> InHouse(cfg.n, id))
    ensures t.leases[WATCHED] == Lease(ttl, cfg.c - cfg.e + ttl) && t.rank == 1
    ensures t.now == Calls(cfg.c, cfg.n) && t.phase == Pausing(t.now)
  {
    var others := Others(cfg.n - 1);
    t := EarlyRefresh(cfg, ttl);
    if others != [] {
      t := SlowSweep(cfg, WATCHED, FullHouse(cfg, ttl), t, |others|);
    }
  }

  function SecondListing(cfg: Config): seq<LeaseId>
    requires cfg.n > 0
  {
    if cfg.stable then [WATCHED] + Others(cfg.n - 1) else Others(cfg.n - 1) + [WATCHED]
  }

  lemma SlowListing(cfg: Config, ttl: int) returns (t: State)
    requires cfg.n > 0 && cfg.e <= cfg.c
    ensures Begins(cfg, WATCHED, ttl, FullHouse(cfg, ttl)) && Reaches(cfg, WATCHED, FullHouse(cfg, ttl), t)
    ensures Sound(t) && (forall id :: id in t.leases <==> InHouse(cfg.n, id))
    ensures t.leases[WATCHED] == Lease(ttl, cfg.c - cfg.e + ttl) && t.rank == 1
    ensures t.now == Calls(cfg.c, cfg.n) + cfg.s && t.phase == Listing(t.now, None)
  {
    t := SlowFirstSweep(cfg, ttl);
    t := WaitStep(cfg, WATCHED, FullHouse(cfg, ttl), t, cfg.s, PauseDone);
  }

  /** A listing can be answered as late as it can be, and the sweep begins at once. */
  lemma SlowAnswer(cfg: Config, watched: LeaseId, start: State, s: State, ids: seq<LeaseId>) returns (t: State)
    requires Sound(start) && Reaches(cfg, watched, start, s) && Sound(s) && s.phase == Listing(s.now, None)
    requires ids != [] && ListingOf(cfg, s, watched, ids)
    ensures Reaches(cfg, watched, start, t) && Sound(t) && t.leases == s.leases
    ensures t.now == s.now + cfg.l && t.phase == Refreshing(ids, t.now, None)
  {
    t := WaitStep(cfg, watched, start, s, cfg.l, Snapshot(ids));
    t := WaitStep(cfg, watched, start, t, 0, ListingDone);
  }

  /** The second sweep begins as late as it can. */
  lemma SlowPause(cfg: Config, ttl: int) returns (t: State)
    requires cfg.n > 0 && cfg.e <= cfg.c
    ensures Begins(cfg, WATCHED, ttl, FullHouse(cfg, ttl)) && Reaches(cfg, WATCHED, FullHouse(cfg, ttl), t)
    ensures Sound(t) && WATCHED in t.leases && t.leases[WATCHED] == Lease(ttl, cfg.c - cfg.e + ttl)
    ensures t.now == Calls(cfg.c, cfg.n) + cfg.s + cfg.l && t.phase == Refreshing(SecondListing(cfg), t.now, None)
  {
    t := SlowListing(cfg, ttl);
    ListsFullHouse(cfg, t, !cfg.stable);
    t := SlowAnswer(cfg, WATCHED, FullHouse(cfg, ttl), t, SecondListing(cfg));
  }

  lemma LastPlace(cfg: Config)
    requires cfg.n > 0 && !cfg.stable
    ensures WATCHED !in SecondListing(cfg)[..cfg.n - 1] && SecondListing(cfg)[cfg.n - 1..] == [WATCHED]
    ensures |SecondListing(cfg)| == cfg.n
    ensures Bound(cfg) == cfg.e + (Calls(cfg.c, cfg.n) + Calls(cfg.c, cfg.n - 1)) + cfg.s + cfg.l
  {
    assert SecondListing(cfg)[..cfg.n - 1] == Others(cfg.n - 1);
    CallsAdd(cfg.c, cfg.n, cfg.n - 1);
  }

  /** And comes to the watched lease behind all others. */
  lemma SlowSecondSweep(cfg: Config, ttl: int) returns (t: State)
    requires cfg.n > 0 && cfg.e <= cfg.c
    ensures Begins(cfg, WATCHED, ttl, FullHouse(cfg, ttl)) && Reaches(cfg, WATCHED, FullHouse(cfg, ttl), t)
    ensures Sound(t) && WATCHED in t.leases && t.leases[WATCHED] == Lease(ttl, cfg.c - cfg.e + ttl)
    ensures t.now == Bound(cfg) - cfg.e && OwnTurn(t, WATCHED) && t.phase == Refreshing(t.phase.queue, t.now, None)
  {
    t := SlowPause(cfg, ttl);
    if !cfg.stable {
      LastPlace(cfg);
      t := SlowSweep(cfg, WATCHED, FullHouse(cfg, ttl), t, cfg.n - 1);
    }
  }

  /** The watched lease, refreshed at cfg.c - cfg.e, is refreshed next the whole bound
      later. */
  lemma SlowestGap(cfg: Config, ttl: int) returns (t: State)
    requires cfg.n > 0 && cfg.e <= cfg.c
    ensures Begins(cfg, WATCHED, ttl, FullHouse(cfg, ttl)) && Reaches(cfg, WATCHED, FullHouse(cfg, ttl), t)
    ensures Sound(t) && WATCHED in t.leases && Enabled(cfg, WATCHED, t, Refresh) && OwnTurn(t, WATCHED)
    ensures t.leases[WATCHED].expiry == cfg.c - cfg.e + ttl && t.now == cfg.c - cfg.e + Bound(cfg)
  {
    t := SlowSecondSweep(cfg, ttl);
    ReachStep(cfg, WATCHED, FullHouse(cfg, ttl), t, Tick(cfg.c));
    t := Apply(WATCHED, t, Tick(cfg.c));
  }

  /** And too late, for a lease that does not live longer than that. */
  lemma SlowRun(cfg: Config, ttl: int) returns (t: State)
    requires cfg.n > 0 && cfg.e <= cfg.c && ttl <= Bound(cfg)
    ensures Begins(cfg, WATCHED, ttl, FullHouse(cfg, ttl)) && Reaches(cfg, WATCHED, FullHouse(cfg, ttl), t)
    ensures WATCHED !in t.leases
  {
    t := SlowestGap(cfg, ttl);
    ReachStep(cfg, WATCHED, FullHouse(cfg, ttl), t, Expire(WATCHED));
    t := Apply(WATCHED, t, Expire(WATCHED));
  }

  /** A watched lease that outlives the first sweep is held through every run exactly
      when its time to live exceeds the bound: N calls, a pause and a listing when the
      order is stable, almost twice the calls when it is not. */
  lemma HoldsIffLongerThanBound(cfg: Config, ttl: int)
    requires cfg.n > 0 && cfg.e <= cfg.c
    ensures Holds(cfg, WATCHED, ttl) <==> Bound(cfg) < ttl
  {
    if Bound(cfg) < ttl {
      LongLeasesHold(cfg, WATCHED, ttl);
    } else {
      var t := SlowRun(cfg, ttl);
      assert Reaches(cfg, WATCHED, FullHouse(cfg, ttl), t);
    }
  }

  lemma {:induction false} CallsIsProduct(c: nat, k: nat)
    ensures Calls(c, k) == k * c
  {
    if k > 0 { CallsIsProduct(c, k - 1); }
  }

  /** In the shape the source states them: 2Nc + l + s whatever the order of the
      listings, Nc + l + s when a place never moves down and a call ends as it is
      counted. */
  lemma BoundInCalls(cfg: Config)
    requires cfg.n > 0 && cfg.e <= cfg.c
    ensures Bound(cfg) <= 2 * cfg.n * cfg.c + cfg.l + cfg.s
    ensures cfg.stable && cfg.e == 0 ==> Bound(cfg) == cfg.n * cfg.c + cfg.l + cfg.s
    ensures !cfg.stable && cfg.e == cfg.c ==> Bound(cfg) == 2 * cfg.n * cfg.c + cfg.l + cfg.s
  {
    CallsIsProduct(cfg.c, Between(cfg));
    CallsMonotone(cfg.c, Between(cfg) + 1, 2 * cfg.n);
    CallsIsProduct(cfg.c, 2 * cfg.n);
  }
}
