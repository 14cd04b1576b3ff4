/**
 The rate limiter: two token buckets for each client, in a map from which idle clients are evicted.
 Tokens are counted exactly, in nanoseconds of refill: a token is one interval's worth of time.
 Each request reads the clock three times: when the client is looked up, when idle clients are
 collected, and when a token is taken.
 */
module RateLimit {
  import opened Names
  import opened Sets

  const MINUTE: nat := 60_000_000_000
  const IDLE: nat := 10 * MINUTE
  const MAX_CLIENTS: nat := 1000

  /** One client less. */
  const CROWD: nat := MAX_CLIENTS - 1

  // ---------------------------------------------------------------------------------------------
  // A bucket
  // ---------------------------------------------------------------------------------------------

  /** level is what the bucket held at time last. */
  datatype Bucket = Bucket(level: int, last: nat)

  /** The time one token takes to come back. */
  function Interval(rpm: nat): nat
    requires rpm > 0
  {
    MINUTE / rpm
  }

  function Full(rpm: nat): nat
    requires rpm > 0
  {
    rpm * Interval(rpm)
  }

  /** An empty bucket is full within a minute, and a full one holds a token. */
  lemma FullIsBounded(rpm: nat)
    requires rpm > 0
    ensures Interval(rpm) <= Full(rpm) <= MINUTE
  {
  }

  function Level(b: Bucket, rpm: nat, t: nat): int
    requires rpm > 0
  {
    var elapsed := if t < b.last then 0 else t - b.last;
    if b.level + elapsed > Full(rpm) then Full(rpm) else b.level + elapsed
  }

  /** A limiter that has not been used: its bucket is full at any time. */
  function NewBucket(rpm: nat): Bucket
    requires rpm > 0
  {
    Bucket(Full(rpm), 0)
  }

  function AllowOf(b: Bucket, rpm: nat, t: nat): (Bucket, bool)
    requires rpm > 0
  {
    if Interval(rpm) == 0 then (b, true)
    else
      var level := Level(b, rpm, t) - Interval(rpm);
      if level >= 0 then (Bucket(level, t), true) else (b, false)
  }

  // ---------------------------------------------------------------------------------------------
  // Clients
  // ---------------------------------------------------------------------------------------------

  datatype Client = Client(general: Bucket, auth: Bucket, lastSeen: nat)

  type Clients = map<string, Client>

  datatype Config = Config(generalRPM: nat, authRPM: nat)

  type Limits = c: Config | c.generalRPM > 0 && c.authRPM > 0 witness Config(100, 10)

  datatype Kind = Thumbnail | Auth | General

  datatype Request = Request(ip: string, kind: Kind, seen: nat, collected: nat, taken: nat)

  function LookedUp(conf: Limits, clients: Clients, r: Request): Client {
    if r.ip in clients then clients[r.ip].(lastSeen := r.seen)
    else Client(NewBucket(conf.generalRPM), NewBucket(conf.authRPM), r.seen)
  }

  predicate IsIdle(c: Client, now: nat) {
    c.lastSeen < now - IDLE
  }

  function CollectOf(clients: Clients, now: nat): (kept: Clients)
    ensures |clients| < MAX_CLIENTS ==> kept == clients
    ensures forall ip :: ip in kept ==> ip in clients && kept[ip] == clients[ip]
    ensures |clients| >= MAX_CLIENTS ==> forall ip :: ip in kept <==> ip in clients && !IsIdle(clients[ip], now)
  {
    if |clients| < MAX_CLIENTS then clients else map ip | ip in clients && !IsIdle(clients[ip], now) :: clients[ip]
  }

  /** A token is taken from the bucket that the kind of the request names. */
  function Taken(conf: Limits, c: Client, r: Request): (Client, bool)
    requires r.kind != Thumbnail
  {
    if r.kind == Auth then
      var (b, ok) := AllowOf(c.auth, conf.authRPM, r.taken);
      (c.(auth := b), ok)
    else
      var (b, ok) := AllowOf(c.general, conf.generalRPM, r.taken);
      (c.(general := b), ok)
  }

  /** One request; with evicting off, idle clients are never collected. */
  function HandleOf(conf: Limits, evicting: bool, clients: Clients, r: Request): (Clients, bool) {
    if r.kind == Thumbnail then (clients, true)
    else
      var c := LookedUp(conf, clients, r);
      var all := clients[r.ip := c];
      var kept := if evicting then CollectOf(all, r.collected) else all;
      var (after, ok) := Taken(conf, c, r);
      (if r.ip in kept then kept[r.ip := after] else kept, ok)
  }

  class RateLimitMiddleware {
    const conf: Limits
    var clients: Clients

    constructor (generalRPM: int, authRPM: int)
      ensures conf.generalRPM == (if generalRPM <= 0 then 100 else generalRPM)
      ensures conf.authRPM == (if authRPM <= 0 then 10 else authRPM)
      ensures clients == map[]
    {
      conf := Config(if generalRPM <= 0 then 100 else generalRPM, if authRPM <= 0 then 10 else authRPM);
      clients := map[];
    }

    /** Takes the clients that were not seen for 10 minutes out of the map, once it holds 1000. */
    method GcLocked(now: nat)
      modifies this
      ensures clients == CollectOf(old(clients), now)
      ensures forall ip :: ip in clients <==>
                ip in old(clients) && (|old(clients)| < 1000 || now - old(clients)[ip].lastSeen <= 600_000_000_000)
      ensures forall ip :: ip in clients ==> clients[ip] == old(clients)[ip]
    {
      if |clients| < MAX_CLIENTS {
        return;
      }
      ghost var all := clients;
      var todo := clients.Keys;
      while todo != {}
        invariant todo <= all.Keys
        invariant forall ip :: ip in clients <==> ip in all && (ip in todo || !IsIdle(all[ip], now))
        invariant forall ip :: ip in clients ==> clients[ip] == all[ip]
      {
        var ip :| ip in todo;
        if clients[ip].lastSeen < now - IDLE {
          clients := clients - {ip};
        }
        todo := todo - {ip};
      }
      assert clients == CollectOf(all, now);
    }

    method GetLimiter(ip: string, seen: nat, collected: nat) returns (c: Client)
      modifies this
      ensures forall kind, taken :: c == LookedUp(conf, old(clients), Request(ip, kind, seen, collected, taken))
      ensures clients == CollectOf(old(clients)[ip := c], collected)
    {
      if ip in clients {
        c := clients[ip].(lastSeen := seen);
        clients := clients[ip := c];
        GcLocked(collected);
        return;
      }
      c := Client(NewBucket(conf.generalRPM), NewBucket(conf.authRPM), seen);
      clients := clients[ip := c];
      GcLocked(collected);
    }

    method Handle(r: Request) returns (ok: bool)
      modifies this
      ensures (clients, ok) == HandleOf(conf, true, old(clients), r)
    {
      if r.kind == Thumbnail {
        return true;
      }
      var limiter := GetLimiter(r.ip, r.seen, r.collected);
      assert limiter == LookedUp(conf, old(clients), Request(r.ip, r.kind, r.seen, r.collected, r.taken));
      var after: Client;
      if r.kind == Auth {
        var (b, allowed) := AllowOf(limiter.auth, conf.authRPM, r.taken);
        after, ok := limiter.(auth := b), allowed;
      } else {
        var (b, allowed) := AllowOf(limiter.general, conf.generalRPM, r.taken);
        after, ok := limiter.(general := b), allowed;
      }
      if r.ip in clients {
        clients := clients[r.ip := after];
      }
    }
  }

  // ---------------------------------------------------------------------------------------------
  // Runs
  // ---------------------------------------------------------------------------------------------

  function Answers(conf: Limits, evicting: bool, clients: Clients, run: seq<Request>): (answers: seq<bool>)
    ensures |answers| == |run|
    decreases |run|
  {
    if run == [] then []
    else
      var (after, ok) := HandleOf(conf, evicting, clients, run[0]);
      [ok] + Answers(conf, evicting, after, run[1..])
  }

  function After(conf: Limits, evicting: bool, clients: Clients, run: seq<Request>): Clients
    decreases |run|
  {
    if run == [] then clients
    else After(conf, evicting, HandleOf(conf, evicting, clients, run[0]).0, run[1..])
  }

  /** The clock never goes back, and requests come one after the other. */
  predicate Sequential(run: seq<Request>, now: nat) {
    run == [] ||
    (now <= run[0].seen <= run[0].collected <= run[0].taken && Sequential(run[1..], run[0].taken))
  }

  /** No request takes longer than gap from looking the client up to taking the token. */
  predicate Prompt(run: seq<Request>, gap: nat) {
    forall r :: r in run ==> r.taken <= r.seen + gap
  }

  // ---------------------------------------------------------------------------------------------
  // Evicting is not observable
  // ---------------------------------------------------------------------------------------------

  /** A client is idle from this time after it was last seen. */
  const EVICTABLE: nat := IDLE + 1

  /** The slower of the two refills. */
  function Slowest(conf: Limits): nat {
    var g, a := Interval(conf.generalRPM), Interval(conf.authRPM);
    if g < a then a else g
  }

  predicate IsFull(b: Bucket, rpm: nat, t: nat)
    requires rpm > 0
  {
    Level(b, rpm, t) == Full(rpm)
  }

  /** The bucket is sound, not used after now, and full again by the time its client can be evicted. */
  predicate Recovers(b: Bucket, rpm: nat, lastSeen: nat, now: nat)
    requires rpm > 0
  {
    && 0 <= b.level <= Full(rpm)
    && b.last <= now
    && IsFull(b, rpm, lastSeen + EVICTABLE)
  }

  predicate ClientRecovers(conf: Limits, c: Client, now: nat) {
    && Recovers(c.general, conf.generalRPM, c.lastSeen, now)
    && Recovers(c.auth, conf.authRPM, c.lastSeen, now)
  }

  /** Buckets that no request from now on can tell apart. */
  predicate Alike(a: Bucket, b: Bucket, rpm: nat, now: nat)
    requires rpm > 0
  {
    a == b || (IsFull(a, rpm, now) && IsFull(b, rpm, now))
  }

  predicate ClientsAlike(conf: Limits, a: Client, b: Client, now: nat) {
    && a.lastSeen == b.lastSeen
    && Alike(a.general, b.general, conf.generalRPM, now)
    && Alike(a.auth, b.auth, conf.authRPM, now)
  }

  predicate IsFresh(conf: Limits, c: Client, now: nat) {
    IsFull(c.general, conf.generalRPM, now) && IsFull(c.auth, conf.authRPM, now)
  }

  /** The map with evictions against the one without, at one client: what is missing was full anyway. */
  predicate SimulatesAt(conf: Limits, kept: Clients, all: Clients, now: nat, ip: string) {
    && (ip in kept ==> ip in all && ClientsAlike(conf, kept[ip], all[ip], now) && ClientRecovers(conf, kept[ip], now))
    && (ip in all ==> ClientRecovers(conf, all[ip], now) && (ip in kept || IsFresh(conf, all[ip], now)))
  }

  ghost predicate Simulates(conf: Limits, kept: Clients, all: Clients, now: nat) {
    forall ip :: SimulatesAt(conf, kept, all, now, ip)
  }

  lemma FullStaysFull(b: Bucket, rpm: nat, t: nat, later: nat)
    requires rpm > 0 && t <= later
    ensures IsFull(b, rpm, t) ==> IsFull(b, rpm, later)
  {
  }

  /** Taking a token promptly leaves time for it to come back before the client can be evicted. */
  lemma TakingRecovers(b: Bucket, rpm: nat, before: nat, now: nat, seen: nat, taken: nat)
    requires rpm > 0 && Recovers(b, rpm, before, now) && before <= seen && now <= seen <= taken
    requires Interval(rpm) == 0 || taken + Interval(rpm) <= seen + EVICTABLE
    ensures Recovers(AllowOf(b, rpm, taken).0, rpm, seen, taken)
  {
    FullIsBounded(rpm);
    FullStaysFull(b, rpm, before + EVICTABLE, seen + EVICTABLE);
    assert Level(b, rpm, taken) >= 0;
  }

  lemma AlikeAnswers(a: Bucket, b: Bucket, rpm: nat, now: nat, taken: nat)
    requires rpm > 0 && Alike(a, b, rpm, now) && now <= taken
    ensures AllowOf(a, rpm, taken).1 == AllowOf(b, rpm, taken).1
    ensures Alike(AllowOf(a, rpm, taken).0, AllowOf(b, rpm, taken).0, rpm, taken)
  {
    FullStaysFull(a, rpm, now, taken);
    FullStaysFull(b, rpm, now, taken);
    FullIsBounded(rpm);
  }

  lemma AlikeLater(conf: Limits, a: Client, b: Client, now: nat, later: nat)
    requires now <= later
    ensures ClientsAlike(conf, a, b, now) ==> ClientsAlike(conf, a, b, later)
    ensures ClientRecovers(conf, a, now) ==> ClientRecovers(conf, a, later)
    ensures IsFresh(conf, a, now) ==> IsFresh(conf, a, later)
  {
  }

  /** The request takes its token early enough. */
  predicate InTime(conf: Limits, r: Request) {
    Slowest(conf) == 0 || r.taken + Slowest(conf) <= r.seen + EVICTABLE
  }

  lemma SeenAgain(b: Bucket, rpm: nat, lastSeen: nat, now: nat, seen: nat)
    requires rpm > 0 && Recovers(b, rpm, lastSeen, now) && now <= seen
    ensures Recovers(b, rpm, seen, seen)
  {
    FullIsBounded(rpm);
  }

  lemma NewBucketRecovers(rpm: nat, seen: nat)
    requires rpm > 0
    ensures Recovers(NewBucket(rpm), rpm, seen, seen) && IsFull(NewBucket(rpm), rpm, seen)
  {
    FullIsBounded(rpm);
  }

  lemma LookedUpRecovers(conf: Limits, m: Clients, now: nat, r: Request)
    requires r.ip in m ==> ClientRecovers(conf, m[r.ip], now)
    requires now <= r.seen
    ensures ClientRecovers(conf, LookedUp(conf, m, r), r.seen)
    ensures r.ip !in m ==> IsFresh(conf, LookedUp(conf, m, r), r.seen)
  {
    if r.ip in m {
      SeenAgain(m[r.ip].general, conf.generalRPM, m[r.ip].lastSeen, now, r.seen);
      SeenAgain(m[r.ip].auth, conf.authRPM, m[r.ip].lastSeen, now, r.seen);
    } else {
      NewBucketRecovers(conf.generalRPM, r.seen);
      NewBucketRecovers(conf.authRPM, r.seen);
    }
  }

  lemma LookedUpAlike(conf: Limits, kept: Clients, all: Clients, now: nat, r: Request)
    requires SimulatesAt(conf, kept, all, now, r.ip) && now <= r.seen
    ensures ClientsAlike(conf, LookedUp(conf, kept, r), LookedUp(conf, all, r), r.seen)
    ensures ClientRecovers(conf, LookedUp(conf, kept, r), r.seen)
    ensures ClientRecovers(conf, LookedUp(conf, all, r), r.seen)
  {
    LookedUpRecovers(conf, kept, now, r);
    LookedUpRecovers(conf, all, now, r);
    if r.ip in all {
      AlikeLater(conf, all[r.ip], all[r.ip], now, r.seen);
      if r.ip in kept {
        AlikeLater(conf, kept[r.ip], all[r.ip], now, r.seen);
      }
    }
  }

  lemma TakenAlike(conf: Limits, a: Client, b: Client, r: Request)
    requires r.kind != Thumbnail && r.seen <= r.taken && ClientsAlike(conf, a, b, r.seen)
    ensures Taken(conf, a, r).1 == Taken(conf, b, r).1
    ensures ClientsAlike(conf, Taken(conf, a, r).0, Taken(conf, b, r).0, r.taken)
  {
    AlikeLater(conf, a, b, r.seen, r.taken);
    if r.kind == Auth {
      AlikeAnswers(a.auth, b.auth, conf.authRPM, r.seen, r.taken);
    } else {
      AlikeAnswers(a.general, b.general, conf.generalRPM, r.seen, r.taken);
    }
  }

  lemma TakenRecovers(conf: Limits, c: Client, r: Request)
    requires r.kind != Thumbnail && r.seen <= r.taken && InTime(conf, r)
    requires ClientRecovers(conf, c, r.seen) && c.lastSeen == r.seen
    ensures ClientRecovers(conf, Taken(conf, c, r).0, r.taken)
    ensures Taken(conf, c, r).0.lastSeen == r.seen
  {
    if r.kind == Auth {
      TakingRecovers(c.auth, conf.authRPM, r.seen, r.seen, r.seen, r.taken);
    } else {
      TakingRecovers(c.general, conf.generalRPM, r.seen, r.seen, r.seen, r.taken);
    }
  }

  /** A client that is idle, or that has no limits at all, has full buckets. */
  lemma EvictedIsFresh(conf: Limits, c: Client, r: Request)
    requires ClientRecovers(conf, c, r.taken) && IsIdle(c, r.collected) && r.collected <= r.taken
    ensures IsFresh(conf, c, r.taken)
  {
    FullStaysFull(c.general, conf.generalRPM, c.lastSeen + EVICTABLE, r.taken);
    FullStaysFull(c.auth, conf.authRPM, c.lastSeen + EVICTABLE, r.taken);
  }

  lemma SimulatesLater(conf: Limits, kept: Clients, all: Clients, now: nat, later: nat, ip: string)
    requires SimulatesAt(conf, kept, all, now, ip) && now <= later
    ensures SimulatesAt(conf, kept, all, later, ip)
  {
    if ip in all {
      AlikeLater(conf, all[ip], all[ip], now, later);
      if ip in kept {
        AlikeLater(conf, kept[ip], all[ip], now, later);
      }
    }
  }

  lemma OwnClient(conf: Limits, kept: Clients, all: Clients, now: nat, r: Request)
    requires r.kind != Thumbnail && SimulatesAt(conf, kept, all, now, r.ip)
    requires now <= r.seen <= r.collected <= r.taken && InTime(conf, r)
    ensures HandleOf(conf, true, kept, r).1 == HandleOf(conf, false, all, r).1
    ensures SimulatesAt(conf, HandleOf(conf, true, kept, r).0, HandleOf(conf, false, all, r).0, r.taken, r.ip)
  {
    var a, b := LookedUp(conf, kept, r), LookedUp(conf, all, r);
    LookedUpAlike(conf, kept, all, now, r);
    TakenAlike(conf, a, b, r);
    TakenRecovers(conf, a, r);
    TakenRecovers(conf, b, r);
    if IsIdle(a, r.collected) {
      EvictedIsFresh(conf, Taken(conf, b, r).0, r);
    }
  }

  lemma OtherClient(conf: Limits, kept: Clients, all: Clients, now: nat, r: Request, ip: string)
    requires r.kind != Thumbnail && SimulatesAt(conf, kept, all, now, ip) && ip != r.ip
    requires now <= r.seen <= r.collected <= r.taken
    ensures SimulatesAt(conf, HandleOf(conf, true, kept, r).0, HandleOf(conf, false, all, r).0, r.taken, ip)
  {
    SimulatesLater(conf, kept, all, now, r.taken, ip);
    if ip in kept && IsIdle(kept[ip], r.collected) {
      EvictedIsFresh(conf, all[ip], r);
    }
  }

  /** One request: the same answer with and without evictions, and the maps go on corresponding. */
  lemma HandleSimulates(conf: Limits, kept: Clients, all: Clients, now: nat, r: Request)
    requires Simulates(conf, kept, all, now)
    requires now <= r.seen <= r.collected <= r.taken && InTime(conf, r)
    ensures HandleOf(conf, true, kept, r).1 == HandleOf(conf, false, all, r).1
    ensures Simulates(conf, HandleOf(conf, true, kept, r).0, HandleOf(conf, false, all, r).0, r.taken)
  {
    assert SimulatesAt(conf, kept, all, now, r.ip);
    if r.kind != Thumbnail {
      OwnClient(conf, kept, all, now, r);
    }
    forall ip
      ensures SimulatesAt(conf, HandleOf(conf, true, kept, r).0, HandleOf(conf, false, all, r).0, r.taken, ip)
    {
      assert SimulatesAt(conf, kept, all, now, ip);
      if r.kind == Thumbnail {
        SimulatesLater(conf, kept, all, now, r.taken, ip);
      } else if ip != r.ip {
        OtherClient(conf, kept, all, now, r, ip);
      }
    }
  }

  lemma {:induction false} RunSimulates(conf: Limits, kept: Clients, all: Clients, now: nat, run: seq<Request>)
    requires Simulates(conf, kept, all, now) && Sequential(run, now)
    requires forall r :: r in run ==> InTime(conf, r)
    ensures Answers(conf, true, kept, run) == Answers(conf, false, all, run)
    decreases |run|
  {
    if run != [] {
      HandleSimulates(conf, kept, all, now, run[0]);
      RunSimulates(conf, HandleOf(conf, true, kept, run[0]).0, HandleOf(conf, false, all, run[0]).0,
                   run[0].taken, run[1..]);
    }
  }

  // ---------------------------------------------------------------------------------------------
  // Slow requests make it observable
  // ---------------------------------------------------------------------------------------------

  lemma {:induction false} AfterConcat(conf: Limits, evicting: bool, m: Clients, a: seq<Request>, b: seq<Request>)
    ensures After(conf, evicting, m, a + b) == After(conf, evicting, After(conf, evicting, m, a), b)
    decreases |a|
  {
    if a == [] {
      assert a + b == b;
    } else {
      assert (a + b)[0] == a[0] && (a + b)[1..] == a[1..] + b;
      AfterConcat(conf, evicting, HandleOf(conf, evicting, m, a[0]).0, a[1..], b);
    }
  }

  lemma {:induction false} AnswersConcat(conf: Limits, evicting: bool, m: Clients, a: seq<Request>, b: seq<Request>)
    ensures Answers(conf, evicting, m, a + b) ==
            Answers(conf, evicting, m, a) + Answers(conf, evicting, After(conf, evicting, m, a), b)
    decreases |a|
  {
    if a == [] {
      assert a + b == b;
    } else {
      var (next, ok) := HandleOf(conf, evicting, m, a[0]);
      assert (a + b)[0] == a[0] && (a + b)[1..] == a[1..] + b;
      AnswersConcat(conf, evicting, next, a[1..], b);
      Regroup(ok, Answers(conf, evicting, next, a[1..]), Answers(conf, evicting, After(conf, evicting, m, a), b));
    }
  }

  lemma Regroup(x: bool, a: seq<bool>, b: seq<bool>)
    ensures [x] + (a + b) == [x] + a + b
  {
  }

  lemma {:induction false} SequentialConcat(a: seq<Request>, b: seq<Request>, now: nat, middle: nat)
    requires Sequential(a, now) && Sequential(b, middle) && now <= middle
    requires forall r :: r in a ==> r.taken <= middle
    ensures Sequential(a + b, now)
    decreases |a|
  {
    if a == [] {
      assert a + b == b;
    } else {
      assert (a + b)[1..] == a[1..] + b;
      assert a[0] in a;
      SequentialConcat(a[1..], b, a[0].taken, middle);
    }
  }

  /** At time zero nobody is idle. */
  lemma NobodyIdle(conf: Limits, m: Clients, r: Request)
    requires r.collected == 0
    ensures HandleOf(conf, true, m, r) == HandleOf(conf, false, m, r)
  {
    if r.kind != Thumbnail {
      var all := m[r.ip := LookedUp(conf, m, r)];
      assert CollectOf(all, 0) == all;
    }
  }

  function SlowestKind(conf: Limits): Kind {
    if Interval(conf.generalRPM) < Interval(conf.authRPM) then Auth else General
  }

  function SlowestRPM(conf: Limits): (rpm: nat)
    ensures rpm > 0 && Interval(rpm) == Slowest(conf)
  {
    if SlowestKind(conf) == Auth then conf.authRPM else conf.generalRPM
  }

  /** What the slower bucket of a client holds. */
  function Holds(conf: Limits, m: Clients, ip: string, t: nat): int {
    var kind := SlowestKind(conf);
    var c := LookedUp(conf, m, Request(ip, kind, t, t, t));
    Level(if kind == Auth then c.auth else c.general, SlowestRPM(conf), t)
  }

  /** n clients, each seen once at time zero. */
  function Crowd(n: nat): seq<Request> {
    if n == 0 then [] else Crowd(n - 1) + [Request(Decimal(n - 1), General, 0, 0, 0)]
  }

  ghost predicate IsCrowd(m: Clients, n: nat) {
    && |m| == n
    && (forall ip :: ip in m ==> exists i: nat {:trigger Decimal(i)} :: i < n && ip == Decimal(i))
  }

  lemma {:induction false} CrowdIsSequential(n: nat)
    ensures Sequential(Crowd(n), 0)
    ensures forall r :: r in Crowd(n) ==> r.seen == r.taken == r.collected == 0
  {
    if n > 0 {
      CrowdIsSequential(n - 1);
      SequentialConcat(Crowd(n - 1), [Request(Decimal(n - 1), General, 0, 0, 0)], 0, 0);
    }
  }

  lemma AfterOneMore(conf: Limits, evicting: bool, a: seq<Request>, r: Request)
    ensures After(conf, evicting, map[], a + [r]) == HandleOf(conf, evicting, After(conf, evicting, map[], a), r).0
  {
    AfterConcat(conf, evicting, map[], a, [r]);
    var m := After(conf, evicting, map[], a);
    assert [r][1..] == [];
    assert After(conf, evicting, HandleOf(conf, evicting, m, r).0, []) == HandleOf(conf, evicting, m, r).0;
  }

  lemma {:induction false} CrowdComes(conf: Limits, evicting: bool, n: nat)
    ensures After(conf, evicting, map[], Crowd(n)) == After(conf, false, map[], Crowd(n))
    ensures IsCrowd(After(conf, evicting, map[], Crowd(n)), n)
  {
    if n > 0 {
      var r := Request(Decimal(n - 1), General, 0, 0, 0);
      CrowdComes(conf, evicting, n - 1);
      AfterOneMore(conf, evicting, Crowd(n - 1), r);
      AfterOneMore(conf, false, Crowd(n - 1), r);
      var m := After(conf, false, map[], Crowd(n - 1));
      NobodyIdle(conf, m, r);
      NewInCrowd(conf, m, r, n - 1);
    }
  }

  lemma NotInCrowd(m: Clients, n: nat)
    requires IsCrowd(m, n)
    ensures Decimal(n) !in m
  {
    if Decimal(n) in m {
      var i: nat :| i < n && Decimal(n) == Decimal(i);
      DecimalInjective(i, n);
    }
  }

  lemma NewInCrowd(conf: Limits, m: Clients, r: Request, n: nat)
    requires IsCrowd(m, n) && r.ip == Decimal(n) && r.kind != Thumbnail
    ensures r.ip !in m
    ensures IsCrowd(HandleOf(conf, false, m, r).0, n + 1)
  {
    NotInCrowd(m, n);
    var m' := HandleOf(conf, false, m, r).0;
    assert m'.Keys == m.Keys + {r.ip};
    assert |m'| == |m'.Keys| && |m| == |m.Keys|;
  }

  function Burst(ip: string, kind: Kind, t: nat, n: nat): (burst: seq<Request>)
    ensures |burst| == n
  {
    if n == 0 then [] else [Request(ip, kind, t, t, t)] + Burst(ip, kind, t, n - 1)
  }

  lemma {:induction false} BurstIsSequential(ip: string, kind: Kind, t: nat, n: nat)
    ensures Sequential(Burst(ip, kind, t, n), t)
    ensures forall r :: r in Burst(ip, kind, t, n) ==> r.seen == r.taken == t
  {
    if n > 0 {
      BurstIsSequential(ip, kind, t, n - 1);
    }
  }

  lemma OneOfBurst(conf: Limits, evicting: bool, m: Clients, ip: string, t: nat)
    requires Slowest(conf) > 0
    ensures var (after, ok) := HandleOf(conf, evicting, m, Request(ip, SlowestKind(conf), t, t, t));
            && (ok <==> Holds(conf, m, ip, t) >= Slowest(conf))
            && (ok ==> Holds(conf, after, ip, t) == Holds(conf, m, ip, t) - Slowest(conf))
  {
  }

  /** In a burst, the n-th request passes if the bucket holds n tokens. */
  lemma {:induction false} BurstAnswers(conf: Limits, evicting: bool, m: Clients, ip: string, t: nat, n: nat)
    requires Slowest(conf) > 0 && n > 0 && Holds(conf, m, ip, t) >= (n - 1) * Slowest(conf)
    ensures Answers(conf, evicting, m, Burst(ip, SlowestKind(conf), t, n))[n - 1]
            <==> Holds(conf, m, ip, t) >= n * Slowest(conf)
    decreases n
  {
    var r := Request(ip, SlowestKind(conf), t, t, t);
    var burst := Burst(ip, SlowestKind(conf), t, n);
    OneOfBurst(conf, evicting, m, ip, t);
    assert burst[0] == r && burst[1..] == Burst(ip, SlowestKind(conf), t, n - 1);
    if n > 1 {
      OneLess(n, Slowest(conf));
      BurstAnswers(conf, evicting, HandleOf(conf, evicting, m, r).0, ip, t, n - 1);
    }
  }

  lemma OneLess(n: nat, d: nat)
    requires n > 1
    ensures (n - 1) * d == n * d - d && (n - 2) * d == (n - 1) * d - d && (n - 1) * d >= d
  {
    assert (n - 1) * d == (n - 2) * d + d;
  }

  /** A crowd, a slow request, and much later another request, which makes the collector run. */
  function Prelude(conf: Limits, n: nat, taken: nat): seq<Request> {
    Crowd(n) + [SlowRequest(conf, n, taken)] + [LateRequest()]
  }

  function SlowRequest(conf: Limits, n: nat, taken: nat): Request {
    Request(Decimal(n), SlowestKind(conf), 0, 0, taken)
  }

  function LateRequest(): Request {
    Request(Decimal(0), General, EVICTABLE, EVICTABLE, EVICTABLE)
  }

  lemma PreludeSplits(conf: Limits, evicting: bool, n: nat, taken: nat)
    ensures var m := After(conf, false, map[], Crowd(n));
            var m1 := HandleOf(conf, false, m, SlowRequest(conf, n, taken)).0;
            && After(conf, evicting, map[], Prelude(conf, n, taken)) == HandleOf(conf, evicting, m1, LateRequest()).0
            && IsCrowd(m, n) && IsCrowd(m1, n + 1) && Decimal(n) !in m
  {
    var m := After(conf, false, map[], Crowd(n));
    CrowdComes(conf, evicting, n);
    CrowdComes(conf, false, n);
    AfterOneMore(conf, evicting, Crowd(n), SlowRequest(conf, n, taken));
    AfterOneMore(conf, evicting, Crowd(n) + [SlowRequest(conf, n, taken)], LateRequest());
    NobodyIdle(conf, m, SlowRequest(conf, n, taken));
    NewInCrowd(conf, m, SlowRequest(conf, n, taken), n);
  }

  /** A new client that takes its one token late is short of full when it can be evicted. */
  lemma SlowClientLacksAToken(conf: Limits, m: Clients, n: nat, taken: nat)
    requires 0 < Slowest(conf) && taken + Slowest(conf) == EVICTABLE + 1 && Decimal(n) !in m
    ensures var m1 := HandleOf(conf, false, m, SlowRequest(conf, n, taken)).0;
            && Decimal(n) in m1 && m1[Decimal(n)].lastSeen == 0
            && Holds(conf, m1, Decimal(n), EVICTABLE) == Full(SlowestRPM(conf)) - 1
  {
    FullIsBounded(SlowestRPM(conf));
  }

  /** In a map that is large enough, the next request evicts whoever was seen at time zero only. */
  lemma LateRequestEvicts(conf: Limits, m: Clients, ip: string)
    requires |m| >= MAX_CLIENTS && ip in m && m[ip].lastSeen == 0 && ip != Decimal(0)
    ensures Holds(conf, HandleOf(conf, true, m, LateRequest()).0, ip, EVICTABLE) == Full(SlowestRPM(conf))
    ensures Holds(conf, HandleOf(conf, false, m, LateRequest()).0, ip, EVICTABLE) == Holds(conf, m, ip, EVICTABLE)
  {
    var late := LateRequest();
    var all := m[late.ip := LookedUp(conf, m, late)];
    SubsetIsSmaller(m.Keys, all.Keys);
    NewClientIsFull(conf, HandleOf(conf, true, m, late).0, ip, EVICTABLE);
  }

  lemma NewClientIsFull(conf: Limits, m: Clients, ip: string, t: nat)
    ensures ip !in m ==> Holds(conf, m, ip, t) == Full(SlowestRPM(conf))
  {
  }

  lemma OtherDigits(n: nat)
    requires n > 0
    ensures Decimal(n) != Decimal(0)
  {
    if Decimal(n) == Decimal(0) {
      DecimalInjective(n, 0);
    }
  }

  /** The slow client is evicted with its bucket a moment short of full. */
  lemma SlowClientIsEvicted(conf: Limits, n: nat, taken: nat)
    requires n == CROWD && Slowest(conf) > 0 && taken + Slowest(conf) == EVICTABLE + 1
    ensures var prelude := Prelude(conf, n, taken);
            && Holds(conf, After(conf, true, map[], prelude), Decimal(n), EVICTABLE) == Full(SlowestRPM(conf))
            && Holds(conf, After(conf, false, map[], prelude), Decimal(n), EVICTABLE) == Full(SlowestRPM(conf)) - 1
  {
    var m := After(conf, false, map[], Crowd(n));
    PreludeSplits(conf, true, n, taken);
    PreludeSplits(conf, false, n, taken);
    SlowClientLacksAToken(conf, m, n, taken);
    OtherDigits(n);
    LateRequestEvicts(conf, HandleOf(conf, false, m, SlowRequest(conf, n, taken)).0, Decimal(n));
  }

  lemma SlowIsBounded(conf: Limits)
    ensures Slowest(conf) <= MINUTE
  {
    FullIsBounded(SlowestRPM(conf));
  }

  /** The last of a burst tells whether the client was evicted. */
  lemma BurstTells(conf: Limits, m: Clients, m': Clients, ip: string, t: nat)
    requires Slowest(conf) > 0
    requires Holds(conf, m, ip, t) == Full(SlowestRPM(conf)) && Holds(conf, m', ip, t) == Full(SlowestRPM(conf)) - 1
    ensures var burst := Burst(ip, SlowestKind(conf), t, SlowestRPM(conf));
            Answers(conf, true, m, burst) != Answers(conf, false, m', burst)
  {
    var rpm := SlowestRPM(conf);
    assert (rpm - 1) * Slowest(conf) == rpm * Slowest(conf) - Slowest(conf) == Full(rpm) - Slowest(conf);
    BurstAnswers(conf, true, m, ip, t, rpm);
    BurstAnswers(conf, false, m', ip, t, rpm);
  }

  /** A request that takes that long is told apart by a burst after it. */
  lemma SlowRequestsShowEvictions(conf: Limits, n: nat) returns (run: seq<Request>)
    requires n == CROWD && Slowest(conf) > 0
    ensures EVICTABLE + 1 >= Slowest(conf)
    ensures Sequential(run, 0) && Prompt(run, EVICTABLE + 1 - Slowest(conf))
    ensures Answers(conf, true, map[], run) != Answers(conf, false, map[], run)
  {
    SlowIsBounded(conf);
    SlowClientIsEvicted(conf, n, EVICTABLE + 1 - Slowest(conf));
    var prelude := Prelude(conf, n, EVICTABLE + 1 - Slowest(conf));
    var burst := Burst(Decimal(n), SlowestKind(conf), EVICTABLE, SlowestRPM(conf));
    run := prelude + burst;
    PreludeIsSequential(conf, n);
    BurstIsSequential(Decimal(n), SlowestKind(conf), EVICTABLE, SlowestRPM(conf));
    SequentialConcat(prelude, burst, 0, EVICTABLE);
    BurstTells(conf, After(conf, true, map[], prelude), After(conf, false, map[], prelude), Decimal(n), EVICTABLE);
    AnswersDiffer(conf, prelude, burst);
  }

  lemma AnswersDiffer(conf: Limits, a: seq<Request>, b: seq<Request>)
    requires Answers(conf, true, After(conf, true, map[], a), b)
             != Answers(conf, false, After(conf, false, map[], a), b)
    ensures Answers(conf, true, map[], a + b) != Answers(conf, false, map[], a + b)
  {
    AnswersConcat(conf, true, map[], a, b);
    AnswersConcat(conf, false, map[], a, b);
    assert Answers(conf, true, map[], a + b)[|a|..] == Answers(conf, true, After(conf, true, map[], a), b);
    assert Answers(conf, false, map[], a + b)[|a|..] == Answers(conf, false, After(conf, false, map[], a), b);
  }

  lemma PreludeIsSequential(conf: Limits, n: nat)
    requires 0 < Slowest(conf) <= EVICTABLE
    ensures var prelude := Prelude(conf, n, EVICTABLE + 1 - Slowest(conf));
            && Sequential(prelude, 0) && Prompt(prelude, EVICTABLE + 1 - Slowest(conf))
            && (forall r :: r in prelude ==> r.taken <= EVICTABLE)
  {
    var slow := SlowRequest(conf, n, EVICTABLE + 1 - Slowest(conf));
    CrowdIsSequential(n);
    SequentialConcat(Crowd(n), [slow], 0, 0);
    SequentialConcat(Crowd(n) + [slow], [LateRequest()], 0, slow.taken);
  }

  /**
   Evictions never change an answer, whatever the requests and their timing, exactly when the longest
   time from looking a client up to taking its token leaves room for one token to come back before the
   client counts as idle.
   */
  lemma EvictionIsUnobservableIff(conf: Limits, gap: nat)
    ensures var g, a := MINUTE / conf.generalRPM, MINUTE / conf.authRPM;
            var slowest := if g < a then a else g;
            slowest == 0 || gap + slowest <= 10 * MINUTE + 1
            <==> forall run :: Sequential(run, 0) && Prompt(run, gap) ==>
                   Answers(conf, true, map[], run) == Answers(conf, false, map[], run)
  {
    if Slowest(conf) == 0 || gap + Slowest(conf) <= EVICTABLE {
      forall run | Sequential(run, 0) && Prompt(run, gap)
        ensures Answers(conf, true, map[], run) == Answers(conf, false, map[], run)
      {
        RunSimulates(conf, map[], map[], 0, run);
      }
    } else {
      var run := SlowRequestsShowEvictions(conf, CROWD);
      assert Sequential(run, 0) && Prompt(run, gap);
    }
  }

  /** Nine minutes are little enough for any limits. */
  lemma NineMinutesAreSafe(conf: Limits, run: seq<Request>)
    ensures Sequential(run, 0) && Prompt(run, 9 * MINUTE) ==>
              Answers(conf, true, map[], run) == Answers(conf, false, map[], run)
  {
    FullIsBounded(conf.generalRPM);
    FullIsBounded(conf.authRPM);
    if Sequential(run, 0) && Prompt(run, 9 * MINUTE) {
      RunSimulates(conf, map[], map[], 0, run);
    }
  }
}
