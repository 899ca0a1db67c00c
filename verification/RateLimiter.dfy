/** Token-bucket rate limiting: the general limiter per client and the oracle limiter,
    which keep the same buckets at different rates. */
module RateLimiter {

  type Key = string

  /** Tokens gained per second, and the burst a full bucket allows. */
  datatype Config = Config(rate: real, burst: nat) {
    ghost predicate Valid() { rate >= 0.0 }
  }

  function GeneralLimits(requestsPerSecond: nat): Config {
    Config(requestsPerSecond as real, requestsPerSecond * 2)
  }

  function OracleLimits(requestsPerMinute: nat): Config {
    Config(requestsPerMinute as real / 60.0, requestsPerMinute * 2)
  }

  datatype Bucket = Bucket(tokens: real, lastUpdate: real)

  type State = map<Key, Bucket>

  function Min(a: real, b: real): real { if a <= b then a else b }

  function Gain(c: Config, dt: real): real { c.rate * dt }

  /** Time since an earlier reading; zero when the reading is not earlier. */
  function Elapsed(now: real, earlier: real): real { if now <= earlier then 0.0 else now - earlier }

  function Refill(c: Config, b: Bucket, now: real): real {
    Min(b.tokens + Gain(c, Elapsed(now, b.lastUpdate)), c.burst as real)
  }

  /** The bucket a check works on; a key seen for the first time has a full one. */
  function Fetch(c: Config, s: State, key: Key, now: real): Bucket {
    if key in s then s[key] else Bucket(c.burst as real, now)
  }

  /** What a key could draw at a given time. */
  function Level(c: Config, s: State, key: Key, now: real): real {
    Refill(c, Fetch(c, s, key, now), now)
  }

  predicate Allows(c: Config, s: State, key: Key, now: real) { Level(c, s, key, now) >= 1.0 }

  function Check(c: Config, s: State, key: Key, now: real): State {
    var level := Level(c, s, key, now);
    s[key := Bucket(if level >= 1.0 then level - 1.0 else level, now)]
  }

  function Cleanup(s: State, maxAge: real, now: real): State {
    map k | k in s && Elapsed(now, s[k].lastUpdate) < maxAge :: s[k]
  }

  /** The oracle limiter's header value: whole tokens at the last update. */
  function Remaining(c: Config, s: State, key: Key): int {
    if key in s then s[key].tokens.Floor else c.burst
  }

  datatype Op = OpCheck(key: Key, now: real) | OpCleanup(maxAge: real, now: real)

  function Step(c: Config, s: State, op: Op): State {
    match op
    case OpCheck(key, now) => Check(c, s, key, now)
    case OpCleanup(maxAge, now) => Cleanup(s, maxAge, now)
  }

  function From(c: Config, s: State, ops: seq<Op>): State {
    if ops == [] then s else Step(c, From(c, s, ops[..|ops| - 1]), ops[|ops| - 1])
  }

  function After(c: Config, ops: seq<Op>): State { From(c, map[], ops) }

  /** The clock never goes back. */
  predicate Timed(ops: seq<Op>) {
    forall i, j :: 0 <= i < j < |ops| ==> ops[i].now <= ops[j].now
  }

  predicate NotBefore(ops: seq<Op>, now: real) {
    forall i :: 0 <= i < |ops| ==> ops[i].now <= now
  }

  /** A cleanup age long enough to fill any bucket. */
  predicate LongEnough(c: Config, maxAge: real) { Gain(c, maxAge) >= c.burst as real }

  predicate SafeAges(c: Config, ops: seq<Op>) {
    forall i :: 0 <= i < |ops| && ops[i].OpCleanup? ==> LongEnough(c, ops[i].maxAge)
  }

  // ----- the window bound, and that nothing else is refused

  /** Requests allowed to a key from position i of the run on. */
  function Count(c: Config, ops: seq<Op>, key: Key, i: nat): nat {
    if |ops| <= i then 0 else
      var before := ops[..|ops| - 1];
      Count(c, before, key, i) + Drawn(c, After(c, before), ops[|ops| - 1], key)
  }

  /** What one step draws from a key's bucket. */
  function Drawn(c: Config, s: State, op: Op, key: Key): nat {
    if op.OpCheck? && op.key == key && Allows(c, s, key, op.now) then 1 else 0
  }

  /** The most requests a window of the given length may hold. */
  function Quota(c: Config, dt: real): real { c.burst as real + Gain(c, dt) }

  predicate BucketsBounded(c: Config, s: State, now: real) {
    forall k :: k in s ==> 0.0 <= s[k].tokens <= c.burst as real && s[k].lastUpdate <= now
  }

  lemma GainAdds(c: Config, a: real, b: real)
    ensures Gain(c, a) + Gain(c, b) == Gain(c, a + b)
  {
  }

  lemma GainGrows(c: Config, a: real, b: real)
    requires c.Valid() && a <= b
    ensures Gain(c, a) <= Gain(c, b)
    ensures Gain(c, 0.0) == 0.0
  {
    assert c.rate * a <= c.rate * b;
  }

  lemma {:induction false} RunBounded(c: Config, ops: seq<Op>, now: real)
    requires c.Valid() && Timed(ops) && NotBefore(ops, now)
    ensures BucketsBounded(c, After(c, ops), now)
  {
    hide Gain;
    if ops != [] {
      var before, op := ops[..|ops| - 1], ops[|ops| - 1];
      RunBounded(c, before, op.now);
      StepBounded(c, After(c, before), op);
    }
  }

  lemma LevelBounded(c: Config, s: State, key: Key, now: real)
    requires c.Valid() && BucketsBounded(c, s, now)
    ensures 0.0 <= Level(c, s, key, now) <= c.burst as real
  {
    GainGrows(c, 0.0, Elapsed(now, Fetch(c, s, key, now).lastUpdate));
  }

  lemma StepBounded(c: Config, s: State, op: Op)
    requires c.Valid() && BucketsBounded(c, s, op.now)
    ensures BucketsBounded(c, Step(c, s, op), op.now)
  {
    if op.OpCheck? {
      LevelBounded(c, s, op.key, op.now);
    }
  }

  /** A key's level later on: what is left now and what it gains, up to a full bucket. */
  lemma LevelLater(c: Config, s: State, key: Key, now: real, later: real)
    requires c.Valid() && BucketsBounded(c, s, now) && now <= later
    ensures Level(c, s, key, later) == Min(Level(c, s, key, now) + Gain(c, later - now), c.burst as real)
  {
    GainGrows(c, 0.0, later - now);
    if key in s {
      GainAdds(c, now - s[key].lastUpdate, later - now);
    }
  }

  lemma CheckLevel(c: Config, s: State, checked: Key, key: Key, now: real)
    requires c.Valid() && BucketsBounded(c, s, now)
    ensures Level(c, Check(c, s, checked, now), key, now)
            == Level(c, s, key, now) - Drawn(c, s, OpCheck(checked, now), key) as real
  {
    LevelBounded(c, s, key, now);
    GainGrows(c, 0.0, 0.0);
  }

  /** A removed bucket that was full again leaves every level as it was. */
  lemma CleanupLevel(c: Config, s: State, maxAge: real, key: Key, now: real)
    requires c.Valid() && BucketsBounded(c, s, now)
    requires key in s && key !in Cleanup(s, maxAge, now) ==> Level(c, s, key, now) == c.burst as real
    ensures Level(c, Cleanup(s, maxAge, now), key, now) == Level(c, s, key, now)
  {
    GainGrows(c, 0.0, 0.0);
  }

  /** With a long enough age every removed bucket was full again. */
  lemma OldIsFull(c: Config, s: State, maxAge: real, key: Key, now: real)
    requires c.Valid() && BucketsBounded(c, s, now) && LongEnough(c, maxAge)
    requires key in s && key !in Cleanup(s, maxAge, now)
    ensures Level(c, s, key, now) == c.burst as real
  {
    GainGrows(c, maxAge, Elapsed(now, s[key].lastUpdate));
  }

  /** One step lowers a level by what it draws from it, and no cleanup shows. */
  lemma StepLevel(c: Config, s: State, op: Op, key: Key)
    requires c.Valid() && BucketsBounded(c, s, op.now)
    requires op.OpCleanup? ==> LongEnough(c, op.maxAge)
    ensures Level(c, Step(c, s, op), key, op.now) == Level(c, s, key, op.now) - Drawn(c, s, op, key) as real
  {
    match op
    case OpCheck(checked, now) =>
      CheckLevel(c, s, checked, key, now);
    case OpCleanup(maxAge, now) =>
      if key in s && key !in Cleanup(s, maxAge, now) {
        OldIsFull(c, s, maxAge, key, now);
      }
      CleanupLevel(c, s, maxAge, key, now);
  }

  /** Room left in the window that begins at position i of the run. */
  function Room(c: Config, ops: seq<Op>, key: Key, i: nat, now: real): real
    requires i < |ops|
  {
    Quota(c, now - ops[i].now) - Count(c, ops, key, i) as real
  }

  /** How one more step, and the time after it, change the room of a window. */
  lemma RoomNext(c: Config, ops: seq<Op>, key: Key, i: nat, now: real)
    requires i < |ops|
    ensures var last := |ops| - 1;
            var before, op := ops[..last], ops[last];
            var drawn := Drawn(c, After(c, before), op, key) as real;
            Room(c, ops, key, i, now)
            == (if i < last then Room(c, before, key, i, op.now) else c.burst as real) - drawn + Gain(c, now - op.now)
  {
    var last := |ops| - 1;
    var before, op := ops[..last], ops[last];
    hide Drawn;
    hide After;
    hide Gain;
    assert Count(c, ops, key, i) == Count(c, before, key, i) + Drawn(c, After(c, before), op, key);
    if i < last {
      GainAdds(c, op.now - ops[i].now, now - op.now);
    } else {
      assert Count(c, before, key, i) == 0;
    }
  }

  /** A key's level is the least room over all windows ending now, or a full bucket. */
  lemma {:induction false} LevelIsLeastRoom(c: Config, ops: seq<Op>, key: Key, now: real)
    requires c.Valid() && Timed(ops) && NotBefore(ops, now) && SafeAges(c, ops)
    ensures Level(c, After(c, ops), key, now) <= c.burst as real
    ensures forall i :: 0 <= i < |ops| ==> Level(c, After(c, ops), key, now) <= Room(c, ops, key, i, now)
    ensures Level(c, After(c, ops), key, now) == c.burst as real
            || exists i :: 0 <= i < |ops| && Level(c, After(c, ops), key, now) == Room(c, ops, key, i, now)
  {
    hide Level;
    hide Gain;
    hide Step;
    if ops == [] {
      EmptyLevel(c, key, now);
    } else {
      var last := |ops| - 1;
      var before, op := ops[..last], ops[last];
      var s := After(c, before);
      LevelIsLeastRoom(c, before, key, op.now);
      RunBounded(c, before, op.now);
      StepBounded(c, s, op);
      StepLevel(c, s, op, key);
      LevelLater(c, Step(c, s, op), key, op.now, now);
      GainGrows(c, 0.0, 0.0);
      var level := Level(c, s, key, op.now);
      var drawn := Drawn(c, s, op, key) as real;
      var result := Level(c, After(c, ops), key, now);
      assert result == Min(level - drawn + Gain(c, now - op.now), c.burst as real);
      forall i | 0 <= i < |ops|
        ensures result <= Room(c, ops, key, i, now)
        ensures i < last ==> Room(c, ops, key, i, now) == Room(c, before, key, i, op.now) - drawn + Gain(c, now - op.now)
        ensures i == last ==> Room(c, ops, key, i, now) == c.burst as real - drawn + Gain(c, now - op.now)
      {
        RoomNext(c, ops, key, i, now);
        assert i < last ==> level <= Room(c, before, key, i, op.now);
      }
      hide Room;
      hide Drawn;
      if result != c.burst as real {
        if level == c.burst as real {
          assert result == Room(c, ops, key, last, now);
        } else {
          var i :| 0 <= i < |before| && level == Room(c, before, key, i, op.now);
          assert result == Room(c, ops, key, i, now);
        }
      }
    }
  }

  lemma EmptyLevel(c: Config, key: Key, now: real)
    ensures Level(c, map[], key, now) == c.burst as real
  {
    assert Gain(c, 0.0) == 0.0;
  }

  /** A request is allowed exactly when it keeps every window ending with it within
      quota: the limiter enforces the bound and refuses nothing the bound permits. */
  lemma AllowsExactly(c: Config, ops: seq<Op>, key: Key, now: real)
    requires c.Valid() && Timed(ops) && NotBefore(ops, now) && SafeAges(c, ops)
    ensures Allows(c, After(c, ops), key, now)
            <==> c.burst >= 1 && forall i :: 0 <= i < |ops| ==> Room(c, ops, key, i, now) >= 1.0
  {
    LevelIsLeastRoom(c, ops, key, now);
  }

  /** Requests allowed to one key in any window of length T number at most burst + rate * T. */
  lemma WindowBound(c: Config, ops: seq<Op>, key: Key, i: nat, j: nat, T: real)
    requires c.Valid() && Timed(ops) && SafeAges(c, ops)
    requires i <= j < |ops| && ops[j].now - ops[i].now <= T
    ensures Count(c, ops[..j + 1], key, i) as real <= Quota(c, T)
  {
    hide Gain;
    hide Level;
    hide From;
    hide Count;
    var window := ops[..j + 1];
    var now := ops[j].now;
    LevelIsLeastRoom(c, window, key, now);
    RunBounded(c, window, now);
    LevelBounded(c, After(c, window), key, now);
    GainGrows(c, now - ops[i].now, T);
    assert Room(c, window, key, i, now) >= 0.0;
  }

  // ----- cleanups

  /** The run as a limiter that never cleans up would see it. */
  function ChecksOnly(ops: seq<Op>): seq<Op> {
    if ops == [] then [] else
      var before := ChecksOnly(ops[..|ops| - 1]);
      if ops[|ops| - 1].OpCheck? then before + [ops[|ops| - 1]] else before
  }

  lemma {:induction false} ChecksOnlyTimed(ops: seq<Op>, now: real)
    requires Timed(ops) && NotBefore(ops, now)
    ensures Timed(ChecksOnly(ops)) && NotBefore(ChecksOnly(ops), now)
    ensures forall i :: 0 <= i < |ChecksOnly(ops)| ==> ChecksOnly(ops)[i].OpCheck?
  {
    if ops != [] {
      ChecksOnlyTimed(ops[..|ops| - 1], ops[|ops| - 1].now);
    }
  }

  /** Cleanups with a long enough age change no later decision: the limiter with them
      refines the limiter without. */
  lemma {:induction false} CleanupsInvisible(c: Config, ops: seq<Op>, key: Key, now: real)
    requires c.Valid() && Timed(ops) && NotBefore(ops, now) && SafeAges(c, ops)
    ensures Level(c, After(c, ops), key, now) == Level(c, After(c, ChecksOnly(ops)), key, now)
    ensures Allows(c, After(c, ops), key, now) <==> Allows(c, After(c, ChecksOnly(ops)), key, now)
  {
    hide Level;
    hide Step;
    if ops != [] {
      var before, op := ops[..|ops| - 1], ops[|ops| - 1];
      var s, t := After(c, before), After(c, ChecksOnly(before));
      CleanupsInvisible(c, before, key, op.now);
      RunBounded(c, before, op.now);
      ChecksOnlyTimed(before, op.now);
      RunBounded(c, ChecksOnly(before), op.now);
      StepBounded(c, s, op);
      StepLevel(c, s, op, key);
      LevelLater(c, Step(c, s, op), key, op.now, now);
      if op.OpCheck? {
        assert ChecksOnly(ops)[..|ChecksOnly(before)|] == ChecksOnly(before);
        StepBounded(c, t, op);
        StepLevel(c, t, op, key);
        LevelLater(c, Step(c, t, op), key, op.now, now);
      } else {
        LevelLater(c, t, key, op.now, now);
      }
    }
  }

  // ----- exactly which cleanups are harmless

  /** The decisions a limiter in state s makes on the checks of one key that follow. */
  predicate Decision(c: Config, s: State, ops: seq<Op>, key: Key, now: real) {
    Allows(c, From(c, s, ops), key, now)
  }

  /** A run and a check at a later time, all from a given time on. */
  ghost predicate Follows(c: Config, now: real, ops: seq<Op>, later: real) {
    Timed(ops) && NotBefore(ops, later) && now <= later && SafeAges(c, ops)
    && forall i :: 0 <= i < |ops| ==> now <= ops[i].now
  }

  /** No run from either state, and no check after it, tells the two states apart. */
  ghost predicate SameFuture(c: Config, s: State, t: State, now: real) {
    forall ops: seq<Op>, key, later :: Follows(c, now, ops, later) ==> (Decision(c, s, ops, key, later) <==> Decision(c, t, ops, key, later))
  }

  function Burst(key: Key, n: nat, now: real): seq<Op> { seq(n, _ => OpCheck(key, now)) }

  /** A burst of n checks takes n tokens, when there are that many. */
  lemma {:induction false} BurstDraws(c: Config, s: State, key: Key, n: nat, now: real)
    requires c.Valid() && BucketsBounded(c, s, now) && n as real <= Level(c, s, key, now)
    ensures BucketsBounded(c, From(c, s, Burst(key, n, now)), now)
    ensures Level(c, From(c, s, Burst(key, n, now)), key, now) == Level(c, s, key, now) - n as real
    ensures n > 0 ==> key in From(c, s, Burst(key, n, now)) && From(c, s, Burst(key, n, now))[key].lastUpdate == now
  {
    hide Level;
    if n > 0 {
      var op := OpCheck(key, now);
      assert Burst(key, n, now)[..n - 1] == Burst(key, n - 1, now);
      BurstDraws(c, s, key, n - 1, now);
      var t := From(c, s, Burst(key, n - 1, now));
      StepBounded(c, t, op);
      StepLevel(c, t, op, key);
    }
  }

  /** The remaining-requests header keeps its promise: that many further checks, made at
      once at any time, are all allowed; made at the last update, the next is refused. */
  lemma RemainingIsPromised(c: Config, s: State, key: Key, now: real, n: nat)
    requires c.Valid() && BucketsBounded(c, s, now)
    ensures n < Remaining(c, s, key) ==> Decision(c, s, Burst(key, n, now), key, now)
    ensures key in s && now == s[key].lastUpdate && n == Remaining(c, s, key)
            ==> !Decision(c, s, Burst(key, n, now), key, now)
  {
    LevelBounded(c, s, key, now);
    var level := Level(c, s, key, now);
    assert Remaining(c, s, key) as real <= level by {
      GainGrows(c, 0.0, Elapsed(now, Fetch(c, s, key, now).lastUpdate));
    }
    if n <= Remaining(c, s, key) {
      BurstDraws(c, s, key, n, now);
    }
    if key in s && now == s[key].lastUpdate {
      GainGrows(c, 0.0, 0.0);
      assert level == s[key].tokens;
    }
  }

  /** A key that was never seen, or was forgotten, is promised the whole burst, and gets it
      and no more: of checks made at once exactly the first `burst` are allowed. */
  lemma FreshKeyGetsBurst(c: Config, s: State, key: Key, now: real, n: nat)
    requires c.Valid() && BucketsBounded(c, s, now) && key !in s
    ensures Remaining(c, s, key) == c.burst
    ensures Decision(c, s, Burst(key, n, now), key, now) <==> n < c.burst
  {
    GainGrows(c, 0.0, 0.0);
    DecidedByLevel(c, s, key, now, n);
  }

  /** Of checks made at once, those are allowed for which there is a whole token. */
  lemma {:induction false} DecidedByLevel(c: Config, s: State, key: Key, now: real, n: nat)
    requires c.Valid() && BucketsBounded(c, s, now)
    ensures BucketsBounded(c, From(c, s, Burst(key, n, now)), now)
    ensures Level(c, From(c, s, Burst(key, n, now)), key, now) >= Level(c, s, key, now) - n as real
    ensures n as real <= Level(c, s, key, now) ==>
              Level(c, From(c, s, Burst(key, n, now)), key, now) == Level(c, s, key, now) - n as real
    ensures Decision(c, s, Burst(key, n, now), key, now) <==> n as real + 1.0 <= Level(c, s, key, now)
  {
    hide Level;
    if n > 0 {
      var op := OpCheck(key, now);
      assert Burst(key, n, now)[..n - 1] == Burst(key, n - 1, now);
      DecidedByLevel(c, s, key, now, n - 1);
      var t := From(c, s, Burst(key, n - 1, now));
      StepBounded(c, t, op);
      StepLevel(c, t, op, key);
    }
  }

  /** A fresh key that uses up its whole burst, and checks again n + 1 times after dt. */
  predicate EarnsBack(c: Config, key: Key, dt: real, n: nat) {
    Decision(c, After(c, Burst(key, c.burst, 0.0)), Burst(key, n, dt), key, dt)
  }

  /** It earns requests back at the configured rate, up to the burst. */
  lemma EarnedBack(c: Config, key: Key, dt: real, n: nat)
    requires c.Valid() && dt >= 0.0
    ensures EarnsBack(c, key, dt, n) <==> n as real + 1.0 <= Gain(c, dt) && n < c.burst
  {
    hide Gain;
    EmptyLevel(c, key, 0.0);
    DecidedByLevel(c, map[], key, 0.0, c.burst);
    var s := After(c, Burst(key, c.burst, 0.0));
    hide Level;
    hide From;
    hide Decision;
    assert BucketsBounded(c, s, dt);
    LevelLater(c, s, key, 0.0, dt);
    DecidedByLevel(c, s, key, dt, n);
  }

  /** For r configured requests per second, a client that comes fresh gets 2r at once, and
      from then on r a second; an oracle, configured per minute, 2r at once and r a minute. */
  lemma BothLimits(r: nat, key: Key, dt: real, n: nat)
    requires dt >= 0.0
    ensures var c := GeneralLimits(r);
            && (Decision(c, map[], Burst(key, n, 0.0), key, 0.0) <==> n < 2 * r)
            && (EarnsBack(c, key, dt, n) <==> n as real + 1.0 <= r as real * dt && n < 2 * r)
    ensures var c := OracleLimits(r);
            && (Decision(c, map[], Burst(key, n, 0.0), key, 0.0) <==> n < 2 * r)
            && (EarnsBack(c, key, dt, n) <==> n as real + 1.0 <= r as real * (dt / 60.0) && n < 2 * r)
  {
    var general, oracle := GeneralLimits(r), OracleLimits(r);
    assert general.burst == oracle.burst == 2 * r && general.Valid() && oracle.Valid();
    assert Gain(general, dt) == r as real * dt;
    PerMinute(r as real, dt);
    assert Gain(oracle, dt) == r as real * (dt / 60.0);
    assert BucketsBounded(general, map[], 0.0) && BucketsBounded(oracle, map[], 0.0);
    hide *;
    FreshKeyGetsBurst(general, map[], key, 0.0, n);
    FreshKeyGetsBurst(oracle, map[], key, 0.0, n);
    EarnedBack(general, key, dt, n);
    EarnedBack(oracle, key, dt, n);
  }

  lemma PerMinute(r: real, dt: real)
    ensures (r / 60.0) * dt == r * (dt / 60.0)
  {
  }

  lemma {:induction false} SameLevelSameFuture(c: Config, s: State, t: State, now: real, ops: seq<Op>, key: Key, later: real)
    requires c.Valid() && BucketsBounded(c, s, now) && BucketsBounded(c, t, now)
    requires Level(c, s, key, now) == Level(c, t, key, now)
    requires Follows(c, now, ops, later)
    ensures BucketsBounded(c, From(c, s, ops), later) && BucketsBounded(c, From(c, t, ops), later)
    ensures Level(c, From(c, s, ops), key, later) == Level(c, From(c, t, ops), key, later)
  {
    hide Level;
    hide Step;
    if ops == [] {
      LevelLater(c, s, key, now, later);
      LevelLater(c, t, key, now, later);
    } else {
      var before, op := ops[..|ops| - 1], ops[|ops| - 1];
      SameLevelSameFuture(c, s, t, now, before, key, op.now);
      var s', t' := From(c, s, before), From(c, t, before);
      StepBounded(c, s', op);
      StepBounded(c, t', op);
      StepLevel(c, s', op, key);
      StepLevel(c, t', op, key);
      LevelLater(c, Step(c, s', op), key, op.now, later);
      LevelLater(c, Step(c, t', op), key, op.now, later);
    }
  }

  /** A cleanup is harmless exactly when every bucket it removes is full again. */
  lemma CleanupHarmlessExactly(c: Config, s: State, maxAge: real, now: real)
    requires c.Valid() && BucketsBounded(c, s, now)
    ensures SameFuture(c, s, Cleanup(s, maxAge, now), now)
            <==> forall k :: k in s && k !in Cleanup(s, maxAge, now) ==> Level(c, s, k, now) == c.burst as real
  {
    hide Level;
    hide Cleanup;
    hide Gain;
    var t := Cleanup(s, maxAge, now);
    CleanupKeeps(c, s, maxAge, now);
    if k :| k in s && k !in t && Level(c, s, k, now) != c.burst as real {
      CleanupTellsApart(c, s, t, k, now);
    } else {
      forall ops: seq<Op>, key, later | Follows(c, now, ops, later)
        ensures Decision(c, s, ops, key, later) <==> Decision(c, t, ops, key, later)
      {
        CleanupLevel(c, s, maxAge, key, now);
        SameLevelSameFuture(c, s, t, now, ops, key, later);
      }
    }
  }

  lemma CleanupKeeps(c: Config, s: State, maxAge: real, now: real)
    requires BucketsBounded(c, s, now)
    ensures BucketsBounded(c, Cleanup(s, maxAge, now), now)
  {
  }

  /** Forgetting a bucket that was not full lets a burst through that it would have stopped. */
  lemma CleanupTellsApart(c: Config, s: State, t: State, key: Key, now: real)
    requires c.Valid() && BucketsBounded(c, s, now) && BucketsBounded(c, t, now)
    requires key in s && key !in t && Level(c, s, key, now) != c.burst as real
    ensures !SameFuture(c, s, t, now)
  {
    LevelBounded(c, s, key, now);
    var level := Level(c, s, key, now);
    assert Level(c, t, key, now) == c.burst as real by { GainGrows(c, 0.0, 0.0); }
    hide Level;
    var n := level.Floor;
    var ops := Burst(key, n, now);
    BurstDraws(c, s, key, n, now);
    BurstDraws(c, t, key, n, now);
    assert !Decision(c, s, ops, key, now);
    assert c.burst >= n + 1;
    assert Decision(c, t, ops, key, now);
  }

  lemma LongAgeHarmless(c: Config, s: State, maxAge: real, now: real)
    requires c.Valid() && BucketsBounded(c, s, now) && LongEnough(c, maxAge)
    ensures SameFuture(c, s, Cleanup(s, maxAge, now), now)
  {
    hide SameFuture;
    hide Level;
    forall k | k in s && k !in Cleanup(s, maxAge, now)
      ensures Level(c, s, k, now) == c.burst as real
    {
      OldIsFull(c, s, maxAge, k, now);
    }
    CleanupHarmlessExactly(c, s, maxAge, now);
  }

  /** Every cleanup with the given age, at any point of any run, is harmless. */
  ghost predicate AlwaysHarmless(c: Config, maxAge: real) {
    forall ops: seq<Op>, now :: Timed(ops) && NotBefore(ops, now)
                       ==> SameFuture(c, After(c, ops), Cleanup(After(c, ops), maxAge, now), now)
  }

  /** Exactly the ages of at least burst / rate are harmless on every run. */
  lemma SafeAgeExactly(c: Config, maxAge: real)
    requires c.Valid() && maxAge >= 0.0
    ensures AlwaysHarmless(c, maxAge) <==> LongEnough(c, maxAge)
  {
    hide SameFuture;
    hide Level;
    if LongEnough(c, maxAge) {
      forall ops: seq<Op>, now | Timed(ops) && NotBefore(ops, now)
        ensures SameFuture(c, After(c, ops), Cleanup(After(c, ops), maxAge, now), now)
      {
        RunBounded(c, ops, now);
        LongAgeHarmless(c, After(c, ops), maxAge, now);
      }
    } else {
      ShortAgeHarms(c, maxAge);
    }
  }

  lemma ShortAgeHarms(c: Config, maxAge: real)
    requires c.Valid() && maxAge >= 0.0 && !LongEnough(c, maxAge)
    ensures !AlwaysHarmless(c, maxAge)
  {
    hide SameFuture;
    hide Level;
    var key := "client";
    var ops := Burst(key, c.burst, 0.0);
    EmptyLevel(c, key, 0.0);
    BurstDraws(c, map[], key, c.burst, 0.0);
    var s := After(c, ops);
    GainGrows(c, 0.0, maxAge);
    LevelLater(c, s, key, 0.0, maxAge);
    RunBounded(c, ops, maxAge);
    assert key in s && key !in Cleanup(s, maxAge, maxAge);
    CleanupHarmlessExactly(c, s, maxAge, maxAge);
    assert !SameFuture(c, After(c, ops), Cleanup(After(c, ops), maxAge, maxAge), maxAge);
  }

  /** Both limiters have a burst of twice their rate, so two of their periods is the
      least safe age: two seconds for clients, two minutes for oracles. */
  lemma SafeAgesOfBoth(requests: nat, maxAge: real)
    requires maxAge >= 0.0
    ensures AlwaysHarmless(GeneralLimits(requests), maxAge) <==> requests == 0 || maxAge >= 2.0
    ensures AlwaysHarmless(OracleLimits(requests), maxAge) <==> requests == 0 || maxAge >= 120.0
  {
    hide AlwaysHarmless;
    hide LongEnough;
    var general, oracle := GeneralLimits(requests), OracleLimits(requests);
    SafeAgeExactly(general, maxAge);
    SafeAgeExactly(oracle, maxAge);
    LongEnoughExactly(general, 2.0, maxAge);
    LongEnoughExactly(oracle, 120.0, maxAge);
  }

  lemma LongEnoughExactly(c: Config, period: real, maxAge: real)
    requires c.Valid() && c.burst as real == c.rate * period
    ensures LongEnough(c, maxAge) <==> c.rate == 0.0 || maxAge >= period
  {
    if c.rate > 0.0 && maxAge < period {
      assert c.rate * (period - maxAge) > 0.0;
    } else if maxAge >= period {
      assert c.rate * (maxAge - period) >= 0.0;
    }
  }

  // ----- the limiter object

  lemma TimedSnoc(ops: seq<Op>, op: Op)
    requires Timed(ops) && NotBefore(ops, op.now)
    ensures Timed(ops + [op])
  {
  }

  class Limiter {
    const limits: Config
    var buckets: map<Key, Bucket>
    ghost var history: seq<Op>

    ghost predicate Valid()
      reads this
    {
      limits.Valid() && Timed(history) && buckets == After(limits, history)
    }

    constructor (limits: Config)
      requires limits.Valid()
      ensures Valid() && this.limits == limits && history == []
    {
      this.limits := limits;
      buckets := map[];
      history := [];
    }

    method Request(key: Key, now: real) returns (allowed: bool)
      requires Valid() && NotBefore(history, now)
      modifies this
      ensures Valid() && history == old(history) + [OpCheck(key, now)]
      ensures SafeAges(limits, old(history)) ==>
                (allowed <==> limits.burst >= 1
                              && forall i :: 0 <= i < |old(history)| ==> Room(limits, old(history), key, i, now) >= 1.0)
      ensures allowed <==> Allows(limits, old(buckets), key, now)
    {
      hide Room;
      hide Timed;
      hide Count;
      if SafeAges(limits, history) {
        AllowsExactly(limits, history, key, now);
      }
      assert Timed(history + [OpCheck(key, now)]) by { TimedSnoc(history, OpCheck(key, now)); }
      ghost var s := buckets;
      if key !in buckets {
        buckets := buckets[key := Bucket(limits.burst as real, now)];
      }
      var bucket := buckets[key];
      bucket, allowed := TryConsume(bucket, limits, now);
      buckets := buckets[key := bucket];
      assert buckets == Check(limits, s, key, now);
      history := history + [OpCheck(key, now)];
      assert history[..|history| - 1] == old(history);
    }

    static method TryConsume(bucket: Bucket, limits: Config, now: real) returns (b: Bucket, allowed: bool)
      ensures allowed <==> Refill(limits, bucket, now) >= 1.0
      ensures b.lastUpdate == now && b.tokens == Refill(limits, bucket, now) - (if allowed then 1.0 else 0.0)
    {
      var elapsed := Elapsed(now, bucket.lastUpdate);
      b := bucket.(tokens := Min(bucket.tokens + elapsed * limits.rate, limits.burst as real));
      b := b.(lastUpdate := now);
      allowed := b.tokens >= 1.0;
      if allowed {
        b := b.(tokens := b.tokens - 1.0);
      }
    }

    method Forget(maxAge: real, now: real)
      requires Valid() && NotBefore(history, now)
      modifies this
      ensures Valid() && history == old(history) + [OpCleanup(maxAge, now)]
      ensures LongEnough(limits, maxAge) ==> SameFuture(limits, old(buckets), buckets, now)
    {
      ghost var s := buckets;
      buckets := map k | k in buckets && Elapsed(now, buckets[k].lastUpdate) < maxAge :: buckets[k];
      history := history + [OpCleanup(maxAge, now)];
      assert history[..|history| - 1] == old(history);
      RunBounded(limits, old(history), now);
      if LongEnough(limits, maxAge) {
        LongAgeHarmless(limits, s, maxAge, now);
      }
    }
  }
}
