/** The API key pool of backend/keypool_manager.py: per-key usage and health
    records, the availability scan, the three selection strategies, the
    outcome reports, the statistics and the parsing of the key list.
    The wall clock is an integer number of microseconds passed in by the
    caller; `random.choice` is an oracle number `pick`, used modulo the
    number of available keys. */
module KeyPool {
  import opened Wrappers
  import opened Strings
  import opened Clock

  /** `cooldown_minutes = 1.5`, 90 seconds. */
  const DefaultCooldown: int := Seconds(90)

  const ExhaustedMessage: string := "All API keys are exhausted or inactive"

  /** One key's record (`ApiKeyStats`). `rateLimitedUntil` is the end of the
      key's cooldown, `None` when it is not cooling down. */
  datatype ApiKeyStats = ApiKeyStats(
    key: string,
    lastUsed: int,
    requestCount: nat,
    rateLimitedUntil: Option<int>,
    consecutiveFailures: nat,
    isActive: bool)

  /** The records the pool starts with: one per key, in list order. */
  function InitialStats(apiKeys: seq<string>, now: int): (ks: seq<ApiKeyStats>)
    ensures |ks| == |apiKeys|
    ensures forall i :: 0 <= i < |ks| ==>
      ks[i].key == apiKeys[i] && ks[i].requestCount == 0 && ks[i].consecutiveFailures == 0
      && ks[i].rateLimitedUntil.None? && ks[i].isActive
  {
    seq(|apiKeys|, i requires 0 <= i < |apiKeys| => ApiKeyStats(apiKeys[i], now, 0, None, 0, true))
  }

  /** A record the availability scan counts as available. */
  predicate IsAvailable(k: ApiKeyStats) {
    k.isActive && k.rateLimitedUntil.None?
  }

  /** A key that may be handed out at time `now`: active, and either not
      cooling down or with its cooldown over. */
  predicate UsableAt(k: ApiKeyStats, now: int) {
    k.isActive && (k.rateLimitedUntil.None? || now >= k.rateLimitedUntil.value)
  }

  /** What the availability scan does to one record: an active key whose
      cooldown is over loses the cooldown and its failure count. */
  function Refreshed(k: ApiKeyStats, now: int): ApiKeyStats {
    if !k.isActive then k
    else if k.rateLimitedUntil.Some? && now >= k.rateLimitedUntil.value then
      k.(rateLimitedUntil := None, consecutiveFailures := 0)
    else k
  }

  function RefreshAll(ks: seq<ApiKeyStats>, now: int): seq<ApiKeyStats> {
    seq(|ks|, i requires 0 <= i < |ks| => Refreshed(ks[i], now))
  }

  /** The positions of the available records, in list order. */
  function AvailableIndices(ks: seq<ApiKeyStats>): (r: seq<nat>)
    ensures |r| <= |ks|
    ensures forall a :: 0 <= a < |r| ==> r[a] < |ks|
  {
    if |ks| == 0 then []
    else
      var n := |ks| - 1;
      AvailableIndices(ks[..n]) + (if IsAvailable(ks[n]) then [n] else [])
  }

  /** `_get_available_keys` lists exactly the available records, each once,
      in list order. */
  lemma {:induction false} AvailableIndicesSpec(ks: seq<ApiKeyStats>)
    ensures forall j: nat :: j in AvailableIndices(ks) <==> j < |ks| && IsAvailable(ks[j])
    ensures AvailableIndices(ks) == [] <==> forall j :: 0 <= j < |ks| ==> !IsAvailable(ks[j])
    ensures forall a, b :: 0 <= a < b < |AvailableIndices(ks)| ==> AvailableIndices(ks)[a] < AvailableIndices(ks)[b]
  {
    AvailableMembers(ks);
    AvailableSorted(ks);
    if AvailableIndices(ks) != [] {
      assert AvailableIndices(ks)[0] in AvailableIndices(ks);
    }
  }

  lemma {:induction false} AvailableMembers(ks: seq<ApiKeyStats>)
    ensures forall j: nat :: j in AvailableIndices(ks) <==> j < |ks| && IsAvailable(ks[j])
  {
    if |ks| > 0 {
      var n := |ks| - 1;
      AvailableMembers(ks[..n]);
      assert AvailableIndices(ks) == AvailableIndices(ks[..n]) + (if IsAvailable(ks[n]) then [n] else []);
      forall j: nat
        ensures j in AvailableIndices(ks) <==> j < |ks| && IsAvailable(ks[j])
      {
        if j < n {
          assert ks[..n][j] == ks[j];
        }
      }
    }
  }

  lemma {:induction false} AvailableSorted(ks: seq<ApiKeyStats>)
    ensures forall a, b :: 0 <= a < b < |AvailableIndices(ks)| ==> AvailableIndices(ks)[a] < AvailableIndices(ks)[b]
  {
    if |ks| > 0 {
      var n := |ks| - 1;
      AvailableSorted(ks[..n]);
    }
  }

  /** The scan makes exactly the usable keys available, keeps the list in
      its order, and touches nothing but the cooldown and failure count of
      keys whose cooldown has passed. */
  lemma ScanAvailability(ks: seq<ApiKeyStats>, now: int)
    ensures |RefreshAll(ks, now)| == |ks|
    ensures forall j: nat :: j in AvailableIndices(RefreshAll(ks, now)) <==> j < |ks| && UsableAt(ks[j], now)
    ensures forall j :: 0 <= j < |ks| ==>
      var r := RefreshAll(ks, now)[j];
      && r.key == ks[j].key && r.lastUsed == ks[j].lastUsed
      && r.requestCount == ks[j].requestCount && r.isActive == ks[j].isActive
      && (r.rateLimitedUntil != ks[j].rateLimitedUntil ==> UsableAt(ks[j], now) && r.rateLimitedUntil.None? && r.consecutiveFailures == 0)
      && (r.consecutiveFailures != ks[j].consecutiveFailures ==> UsableAt(ks[j], now) && r.consecutiveFailures == 0)
  {
    AvailableIndicesSpec(RefreshAll(ks, now));
  }

  /** The record after it has been handed out at time `now`. */
  function Touched(k: ApiKeyStats, now: int): ApiKeyStats {
    k.(lastUsed := now, requestCount := k.requestCount + 1)
  }

  lemma MulAtLeast(k: int, n: nat)
    requires k >= 1
    ensures k * n >= n
  {
    if k > 1 {
      MulAtLeast(k - 1, n);
      assert k * n == (k - 1) * n + n;
    }
  }

  lemma ModUnique(a: nat, n: nat, q: int, r: int)
    requires n > 0 && 0 <= r < n && a == q * n + r
    ensures a % n == r
  {
    var q2, r2 := a / n, a % n;
    assert a == q2 * n + r2;
    assert (q - q2) * n == r2 - r;
    if q > q2 { MulAtLeast(q - q2, n); }
    if q2 > q { MulAtLeast(q2 - q, n); }
  }

  lemma ModStep(c: nat, n: nat)
    requires n > 0
    ensures (c + 1) % n == if c % n + 1 == n then 0 else c % n + 1
  {
    var q, r := c / n, c % n;
    assert c == q * n + r;
    if r + 1 == n {
      ModUnique(c + 1, n, q + 1, 0);
    } else {
      ModUnique(c + 1, n, q, r + 1);
    }
  }

  /** Advancing a counter by `d < n` moves its residue modulo `n` by `d`, wrapping once. */
  lemma ModShift(c: nat, n: nat, d: nat)
    requires d < n
    ensures (c + d) % n == if c % n + d < n then c % n + d else c % n + d - n
  {
    if d > 0 {
      ModShift(c, n, d - 1);
      ModStep(c + d - 1, n);
    }
  }

  /** The round-robin probe `d` steps past the cursor lands on an available key. */
  predicate Hit(ks: seq<ApiKeyStats>, cursor: nat, d: nat)
    requires |ks| > 0
  {
    IsAvailable(ks[(cursor + d) % |ks|])
  }

  /** Where the round-robin probe stops: the first offset `d` in
      [from, |ks|) such that position `(cursor + d) % |ks|` is available. */
  function ProbeOffset(ks: seq<ApiKeyStats>, cursor: nat, from: nat): (r: Option<nat>)
    decreases |ks| - from
    ensures r.Some? ==> from <= r.value < |ks|
  {
    if from >= |ks| then None
    else if Hit(ks, cursor, from) then Some(from)
    else ProbeOffset(ks, cursor, from + 1)
  }

  /** The probe stops at the first hit, and finds none only when there is none. */
  lemma {:induction false} ProbeOffsetSpec(ks: seq<ApiKeyStats>, cursor: nat, from: nat)
    decreases |ks| - from
    ensures var r := ProbeOffset(ks, cursor, from);
      && (r.Some? ==> Hit(ks, cursor, r.value) && forall d :: from <= d < r.value ==> !Hit(ks, cursor, d))
      && (r.None? ==> forall d :: from <= d < |ks| ==> !Hit(ks, cursor, d))
  {
    if from < |ks| && !Hit(ks, cursor, from) {
      ProbeOffsetSpec(ks, cursor, from + 1);
    }
  }

  /** Within |ks| probes every position is tried once, so when some key is
      available the probe finds one and the fallback `available_keys[0]` of
      the round-robin strategy is never taken. */
  lemma ProbeFindsAvailable(ks: seq<ApiKeyStats>, cursor: nat)
    requires |AvailableIndices(ks)| > 0
    ensures ProbeOffset(ks, cursor, 0).Some?
  {
    AvailableIndicesSpec(ks);
    ProbeOffsetSpec(ks, cursor, 0);
    var j := AvailableIndices(ks)[0];
    var n, r := |ks|, cursor % |ks|;
    var d := if j >= r then j - r else j + n - r;
    ModShift(cursor, n, d);
    assert Hit(ks, cursor, d);
  }

  /** A selection: the chosen position and the new rotation cursor. */
  datatype Pick = Pick(chosen: nat, cursor: nat)

  /** `_round_robin_selection`: probe at most |ks| positions from the cursor,
      advancing it once per probe; fall back to the first available key. */
  function RoundRobinPick(ks: seq<ApiKeyStats>, available: seq<nat>, cursor: nat): (p: Pick)
    requires |available| > 0 && available == AvailableIndices(ks)
    ensures p.chosen < |ks|
    ensures cursor < p.cursor <= cursor + |ks|
  {
    match ProbeOffset(ks, cursor, 0)
    case Some(d) => Pick((cursor + d) % |ks|, cursor + d + 1)
    case None => Pick(available[0], cursor + |ks|)
  }

  /** `min(available_keys, key=request_count)`: the position, in the
      available list, of the first key with the least request count. */
  function LeastUsedPosition(ks: seq<ApiKeyStats>, available: seq<nat>): (m: nat)
    requires |available| > 0
    requires forall i :: 0 <= i < |available| ==> available[i] < |ks|
    ensures m < |available|
  {
    if |available| == 1 then 0
    else
      var last := |available| - 1;
      var m := LeastUsedPosition(ks, available[..last]);
      if ks[available[last]].requestCount < ks[available[m]].requestCount then last else m
  }

  /** The position found has the least request count, and every earlier
      position has a larger one. */
  lemma {:induction false} LeastUsedSpec(ks: seq<ApiKeyStats>, available: seq<nat>)
    requires |available| > 0
    requires forall i :: 0 <= i < |available| ==> available[i] < |ks|
    ensures var m := LeastUsedPosition(ks, available);
      && (forall i :: 0 <= i < |available| ==> ks[available[m]].requestCount <= ks[available[i]].requestCount)
      && (forall i :: 0 <= i < m ==> ks[available[m]].requestCount < ks[available[i]].requestCount)
  {
    if |available| > 1 {
      var last := |available| - 1;
      LeastUsedSpec(ks, available[..last]);
      assert forall i :: 0 <= i < last ==> available[..last][i] == available[i];
    }
  }

  /** The three selection strategies of `get_next_key`. */
  datatype Strategy = RoundRobin | Random | LeastUsed

  /** How `get_next_key` reads the strategy name: an unknown name falls
      through to round-robin. */
  function StrategyOf(name: string): (s: Strategy)
    ensures s == Random <==> name == "random"
    ensures s == LeastUsed <==> name == "least_used"
  {
    if name == "round_robin" then RoundRobin
    else if name == "random" then Random
    else if name == "least_used" then LeastUsed
    else RoundRobin
  }

  /** The strategy dispatch of `get_next_key`. */
  function Choose(ks: seq<ApiKeyStats>, available: seq<nat>, cursor: nat, strategy: Strategy, pick: nat): (p: Pick)
    requires |available| > 0 && available == AvailableIndices(ks)
    ensures p.chosen < |ks|
  {
    match strategy
    case RoundRobin => RoundRobinPick(ks, available, cursor)
    case Random => Pick(available[pick % |available|], cursor)
    case LeastUsed => Pick(available[LeastUsedPosition(ks, available)], cursor)
  }

  /** Every strategy picks an available key. */
  lemma ChooseSpec(ks: seq<ApiKeyStats>, available: seq<nat>, cursor: nat, strategy: Strategy, pick: nat)
    requires |available| > 0 && available == AvailableIndices(ks)
    ensures Choose(ks, available, cursor, strategy, pick).chosen in available
  {
    AvailableIndicesSpec(ks);
    if strategy == RoundRobin {
      RoundRobinPickSpec(ks, available, cursor);
    }
  }

  lemma RoundRobinPickSpec(ks: seq<ApiKeyStats>, available: seq<nat>, cursor: nat)
    requires |available| > 0 && available == AvailableIndices(ks)
    ensures RoundRobinPick(ks, available, cursor).chosen in available
  {
    AvailableMembers(ks);
    ProbeOffsetSpec(ks, cursor, 0);
  }

  /** The earliest end of a cooldown still running at `now`, over all keys,
      active or not, as `_wait_for_cooldown` looks for it. */
  function EarliestCooldown(ks: seq<ApiKeyStats>, now: int): (r: Option<int>)
  {
    if |ks| == 0 then None
    else
      var n := |ks| - 1;
      var rest := EarliestCooldown(ks[..n], now);
      var here := ks[n].rateLimitedUntil;
      if here.Some? && here.value > now && (rest.None? || here.value < rest.value) then here
      else rest
  }

  /** The cooldown found is running, belongs to some key, and ends no later
      than any other running cooldown; none is found only when none runs. */
  lemma {:induction false} EarliestCooldownSpec(ks: seq<ApiKeyStats>, now: int)
    ensures var r := EarliestCooldown(ks, now);
      && (r.None? ==> forall i :: 0 <= i < |ks| && ks[i].rateLimitedUntil.Some? ==> ks[i].rateLimitedUntil.value <= now)
      && (r.Some? ==> r.value > now && exists i :: 0 <= i < |ks| && ks[i].rateLimitedUntil == r)
      && (r.Some? ==> forall i :: 0 <= i < |ks| && ks[i].rateLimitedUntil.Some? && ks[i].rateLimitedUntil.value > now
                          ==> r.value <= ks[i].rateLimitedUntil.value)
  {
    if |ks| > 0 {
      var n := |ks| - 1;
      EarliestCooldownSpec(ks[..n], now);
      assert forall i :: 0 <= i < n ==> ks[..n][i] == ks[i];
      var rest := EarliestCooldown(ks[..n], now);
      if rest.Some? {
        var i :| 0 <= i < n && ks[..n][i].rateLimitedUntil == rest;
        assert ks[i].rateLimitedUntil == rest;
      }
    }
  }

  /** How long `_wait_for_cooldown` sleeps: until the earliest running
      cooldown ends, but only when that is less than 90 seconds away. */
  function CooldownWait(ks: seq<ApiKeyStats>, now: int): (w: nat)
    ensures w < DefaultCooldown
  {
    match EarliestCooldown(ks, now)
    case None => 0
    case Some(t) => if 0 < t - now < DefaultCooldown then t - now else 0
  }

  /** The records and the clock after the scan of `get_next_key`: when
      nothing is available it waits for the nearest cooldown and scans again. */
  datatype Scan = Scan(keys: seq<ApiKeyStats>, clock: int)

  function ScanWithWait(ks: seq<ApiKeyStats>, now: int): (s: Scan)
    ensures |s.keys| == |ks| && now <= s.clock < now + DefaultCooldown
  {
    var first := RefreshAll(ks, now);
    if |AvailableIndices(first)| > 0 then
      Scan(first, now)
    else
      var clock := now + CooldownWait(first, now);
      Scan(RefreshAll(first, clock), clock)
  }

  /** The scan waits only when no key is usable; afterwards exactly the
      keys usable at the new clock are available; names, request counts
      and active flags do not change. */
  lemma ScanWithWaitSpec(ks: seq<ApiKeyStats>, now: int)
    ensures var s := ScanWithWait(ks, now);
      && (s.clock != now ==> forall j :: 0 <= j < |ks| ==> !UsableAt(ks[j], now))
      && (forall j :: 0 <= j < |ks| ==> IsAvailable(s.keys[j]) == UsableAt(ks[j], s.clock))
      && (forall j :: 0 <= j < |ks| ==>
            && s.keys[j].key == ks[j].key && s.keys[j].requestCount == ks[j].requestCount
            && s.keys[j].isActive == ks[j].isActive)
  {
    var first := RefreshAll(ks, now);
    ScanAvailability(ks, now);
    AvailableIndicesSpec(first);
    if |AvailableIndices(first)| == 0 {
      assert forall j :: 0 <= j < |ks| ==> !UsableAt(ks[j], now) by {
        forall j | 0 <= j < |ks| ensures !UsableAt(ks[j], now) {
          assert j !in AvailableIndices(first);
        }
      }
      assert first == ks;
    }
  }

  /** The outcome of one `get_next_key`: the chosen position or the error,
      the records and the cursor afterwards, and the clock after any wait. */
  datatype Selection = Selection(chosen: Result<nat, string>, keys: seq<ApiKeyStats>, cursor: nat, clock: int)

  /** `get_next_key`: scan (waiting once if need be); raise if nothing is
      available; otherwise select by strategy and count the request against
      the chosen key. */
  function NextKey(ks: seq<ApiKeyStats>, cursor: nat, strategy: Strategy, now: int, pick: nat): (sel: Selection)
    ensures |sel.keys| == |ks| && now <= sel.clock < now + DefaultCooldown
    ensures sel.chosen.Success? ==> sel.chosen.value < |ks|
  {
    var scan := ScanWithWait(ks, now);
    var available := AvailableIndices(scan.keys);
    if |available| == 0 then Selection(Failure(ExhaustedMessage), scan.keys, cursor, scan.clock)
    else
      var p := Choose(scan.keys, available, cursor, strategy, pick);
      Selection(Success(p.chosen), scan.keys[p.chosen := Touched(scan.keys[p.chosen], scan.clock)], p.cursor, scan.clock)
  }

  /** The result of one `get_next_key` when the scan found some key. */
  lemma NextKeyFound(ks: seq<ApiKeyStats>, cursor: nat, strategy: Strategy, now: int, pick: nat)
    requires |AvailableIndices(ScanWithWait(ks, now).keys)| > 0
    ensures var scan := ScanWithWait(ks, now);
      var p := Choose(scan.keys, AvailableIndices(scan.keys), cursor, strategy, pick);
      NextKey(ks, cursor, strategy, now, pick)
        == Selection(Success(p.chosen), scan.keys[p.chosen := Touched(scan.keys[p.chosen], scan.clock)], p.cursor, scan.clock)
  {
  }

  /** One `get_next_key`, stated against the records before it: a key is
      handed out exactly when some key is usable at the clock after the
      wait, and that key is usable then; on exhaustion the error is raised
      and the cursor does not move. */
  lemma NextKeyOutcome(ks: seq<ApiKeyStats>, cursor: nat, strategy: Strategy, now: int, pick: nat)
    ensures var sel := NextKey(ks, cursor, strategy, now, pick);
      && (sel.chosen.Success? <==> exists j :: 0 <= j < |ks| && UsableAt(ks[j], sel.clock))
      && (sel.chosen.Success? ==> UsableAt(ks[sel.chosen.value], sel.clock))
      && (sel.chosen.Failure? ==> sel.chosen.error == ExhaustedMessage && sel.cursor == cursor)
  {
    var scan := ScanWithWait(ks, now);
    var available := AvailableIndices(scan.keys);
    ScanWithWaitSpec(ks, now);
    AvailableIndicesSpec(scan.keys);
    if |available| > 0 {
      NextKeyFound(ks, cursor, strategy, now, pick);
      ChooseSpec(scan.keys, available, cursor, strategy, pick);
    }
  }

  /** One `get_next_key` counts one request against the chosen key and
      none against any other, and no key changes its name or its active flag. */
  lemma NextKeyCounts(ks: seq<ApiKeyStats>, cursor: nat, strategy: Strategy, now: int, pick: nat)
    ensures var sel := NextKey(ks, cursor, strategy, now, pick);
      && (forall j :: 0 <= j < |ks| ==> sel.keys[j].key == ks[j].key && sel.keys[j].isActive == ks[j].isActive)
      && (forall j :: 0 <= j < |ks| ==>
            sel.keys[j].requestCount == ks[j].requestCount + (if sel.chosen == Success(j) then 1 else 0))
  {
    ScanWithWaitSpec(ks, now);
    if |AvailableIndices(ScanWithWait(ks, now).keys)| > 0 {
      NextKeyFound(ks, cursor, strategy, now, pick);
    }
  }

  /** When some key is usable at `now`, the scan does not wait. */
  lemma ScanNoWait(ks: seq<ApiKeyStats>, now: int, j: nat)
    requires j < |ks| && UsableAt(ks[j], now)
    ensures ScanWithWait(ks, now) == Scan(RefreshAll(ks, now), now)
  {
    ScanAvailability(ks, now);
    assert j in AvailableIndices(RefreshAll(ks, now));
  }

  /** The least-used choice stated over the records rather than over the
      list of available positions. */
  lemma LeastUsedOverRecords(ks: seq<ApiKeyStats>, available: seq<nat>)
    requires |available| > 0 && available == AvailableIndices(ks)
    ensures var c := available[LeastUsedPosition(ks, available)];
      forall j :: 0 <= j < |ks| && IsAvailable(ks[j]) ==>
        ks[c].requestCount <= ks[j].requestCount && (j < c ==> ks[c].requestCount < ks[j].requestCount)
  {
    AvailableIndicesSpec(ks);
    LeastUsedSpec(ks, available);
    var m := LeastUsedPosition(ks, available);
    var c := available[m];
    forall j | 0 <= j < |ks| && IsAvailable(ks[j])
      ensures ks[c].requestCount <= ks[j].requestCount
      ensures j < c ==> ks[c].requestCount < ks[j].requestCount
    {
      assert j in available;
      var i :| 0 <= i < |available| && available[i] == j;
      assert i < m <==> j < c;
    }
  }

  /** With the strategy "least_used" the key handed out has the smallest
      request count among the keys usable at the clock, and among those with
      that count it comes first in the list. */
  lemma LeastUsedChoice(ks: seq<ApiKeyStats>, cursor: nat, now: int, pick: nat)
    ensures var sel := NextKey(ks, cursor, LeastUsed, now, pick);
      sel.chosen.Success? ==>
        var c := sel.chosen.value;
        && sel.cursor == cursor
        && (forall j :: 0 <= j < |ks| && UsableAt(ks[j], sel.clock) ==> ks[c].requestCount <= ks[j].requestCount)
        && (forall j :: 0 <= j < c && UsableAt(ks[j], sel.clock) ==> ks[c].requestCount < ks[j].requestCount)
  {
    var scan := ScanWithWait(ks, now);
    var available := AvailableIndices(scan.keys);
    if |available| > 0 {
      ScanWithWaitSpec(ks, now);
      NextKeyFound(ks, cursor, LeastUsed, now, pick);
      LeastUsedOverRecords(scan.keys, available);
    }
  }

  /** With the strategy "random" the cursor never moves. */
  lemma RandomKeepsCursor(ks: seq<ApiKeyStats>, cursor: nat, now: int, pick: nat)
    ensures NextKey(ks, cursor, Random, now, pick).cursor == cursor
  {
  }

  /** A round-robin selection moves the cursor forward by at least one and
      at most the number of keys. */
  lemma RoundRobinAdvance(ks: seq<ApiKeyStats>, cursor: nat, now: int, pick: nat)
    ensures var sel := NextKey(ks, cursor, RoundRobin, now, pick);
      sel.chosen.Success? ==> cursor < sel.cursor <= cursor + |ks|
  {
  }

  /** The probe stops at once when the key under the cursor is available. */
  lemma ProbeAtCursor(ks: seq<ApiKeyStats>, cursor: nat)
    requires |ks| > 0 && IsAvailable(ks[cursor % |ks|])
    ensures ProbeOffset(ks, cursor, 0) == Some(0)
  {
    assert Hit(ks, cursor, 0);
  }

  /** When every key is usable, a round-robin selection hands out the key
      under the cursor, moves the cursor by exactly one, does not wait, and
      leaves every key usable. */
  lemma RoundRobinAllUsable(ks: seq<ApiKeyStats>, cursor: nat, now: int, pick: nat)
    requires |ks| > 0 && forall j :: 0 <= j < |ks| ==> UsableAt(ks[j], now)
    ensures var sel := NextKey(ks, cursor, RoundRobin, now, pick);
      && sel.chosen == Success(cursor % |ks|) && sel.cursor == cursor + 1 && sel.clock == now
      && forall j :: 0 <= j < |ks| ==> UsableAt(sel.keys[j], now)
  {
    ScanNoWait(ks, now, 0);
    ScanWithWaitSpec(ks, now);
    var scan := ScanWithWait(ks, now);
    AvailableIndicesSpec(scan.keys);
    var c := cursor % |ks|;
    assert c in AvailableIndices(scan.keys);
    ProbeAtCursor(scan.keys, cursor);
    NextKeyFound(ks, cursor, RoundRobin, now, pick);
  }

  /** The pool's rotation state between two calls of `get_next_key`. */
  datatype Turn = Turn(keys: seq<ApiKeyStats>, cursor: nat)

  /** One round-robin call at clock reading `now` goes from `s` to `t` and hands out `pick`. */
  predicate RoundRobinStep(s: Turn, pick: nat, t: Turn, now: int) {
    var sel := NextKey(s.keys, s.cursor, RoundRobin, now, 0);
    sel.chosen == Success(pick) && sel.keys == t.keys && sel.cursor == t.cursor
  }

  /** `states` and `picks` record consecutive round-robin calls. */
  predicate RoundRobinTrace(states: seq<Turn>, picks: seq<nat>, now: int) {
    && |states| == |picks| + 1
    && forall k :: 0 <= k < |picks| ==> RoundRobinStep(states[k], picks[k], states[k + 1], now)
  }

  /** The step of a trace with every key usable. */
  lemma RoundRobinTurn(ks: seq<ApiKeyStats>, cursor: nat, now: int) returns (next: seq<ApiKeyStats>)
    requires |ks| > 0 && forall j :: 0 <= j < |ks| ==> UsableAt(ks[j], now)
    ensures |next| == |ks| && forall j :: 0 <= j < |next| ==> UsableAt(next[j], now)
    ensures RoundRobinStep(Turn(ks, cursor), cursor % |ks|, Turn(next, cursor + 1), now)
  {
    RoundRobinAllUsable(ks, cursor, now, 0);
    next := NextKey(ks, cursor, RoundRobin, now, 0).keys;
  }

  /** With every key usable, any number of consecutive round-robin calls
      succeed: such a trace exists from every state. */
  lemma {:induction false} RoundRobinTraceExists(ks: seq<ApiKeyStats>, cursor: nat, now: int, m: nat)
    returns (states: seq<Turn>, picks: seq<nat>)
    requires |ks| > 0 && forall j :: 0 <= j < |ks| ==> UsableAt(ks[j], now)
    ensures RoundRobinTrace(states, picks, now) && |picks| == m && states[0] == Turn(ks, cursor)
    decreases m
  {
    if m == 0 {
      states, picks := [Turn(ks, cursor)], [];
    } else {
      var next := RoundRobinTurn(ks, cursor, now);
      var rest, restPicks := RoundRobinTraceExists(next, cursor + 1, now, m - 1);
      TraceCons(Turn(ks, cursor), cursor % |ks|, rest, restPicks, now);
      states, picks := [Turn(ks, cursor)] + rest, [cursor % |ks|] + restPicks;
    }
  }

  /** A round-robin step from a state where every key is usable takes the
      key under the cursor, moves the cursor by one, and keeps every key usable. */
  lemma StepFromUsable(s: Turn, pick: nat, t: Turn, now: int)
    requires |s.keys| > 0 && forall j :: 0 <= j < |s.keys| ==> UsableAt(s.keys[j], now)
    requires RoundRobinStep(s, pick, t, now)
    ensures pick == s.cursor % |s.keys| && t.cursor == s.cursor + 1 && |t.keys| == |s.keys|
    ensures forall j :: 0 <= j < |t.keys| ==> UsableAt(t.keys[j], now)
  {
    RoundRobinAllUsable(s.keys, s.cursor, now, 0);
  }

  /** A step followed by a trace is a trace. */
  lemma TraceCons(s: Turn, pick: nat, rest: seq<Turn>, restPicks: seq<nat>, now: int)
    requires RoundRobinTrace(rest, restPicks, now) && RoundRobinStep(s, pick, rest[0], now)
    ensures RoundRobinTrace([s] + rest, [pick] + restPicks, now)
  {
    var states, picks := [s] + rest, [pick] + restPicks;
    forall k | 0 <= k < |picks|
      ensures RoundRobinStep(states[k], picks[k], states[k + 1], now)
    {
      if k == 0 {
        StepCongruence(s, pick, rest[0], states[0], picks[0], states[1], now);
      } else {
        assert RoundRobinStep(rest[k - 1], restPicks[k - 1], rest[k], now);
        StepCongruence(rest[k - 1], restPicks[k - 1], rest[k], states[k], picks[k], states[k + 1], now);
      }
    }
  }

  lemma StepCongruence(s: Turn, pick: nat, t: Turn, s': Turn, pick': nat, t': Turn, now: int)
    requires RoundRobinStep(s, pick, t, now) && s' == s && pick' == pick && t' == t
    ensures RoundRobinStep(s', pick', t', now)
  {
  }

  /** Along a trace that starts with every key usable, every call hands out
      the key under the cursor and moves the cursor by one, and every key
      stays usable. */
  lemma {:induction false} RoundRobinCycles(states: seq<Turn>, picks: seq<nat>, now: int, k: nat)
    requires RoundRobinTrace(states, picks, now) && k < |states|
    requires |states[0].keys| > 0 && forall j :: 0 <= j < |states[0].keys| ==> UsableAt(states[0].keys[j], now)
    ensures |states[k].keys| == |states[0].keys| && states[k].cursor == states[0].cursor + k
    ensures forall j :: 0 <= j < |states[k].keys| ==> UsableAt(states[k].keys[j], now)
    ensures forall i :: 0 <= i < k ==> picks[i] == (states[0].cursor + i) % |states[0].keys|
    decreases k
  {
    if k > 0 {
      RoundRobinCycles(states, picks, now, k - 1);
      assert RoundRobinStep(states[k - 1], picks[k - 1], states[k], now);
      StepFromUsable(states[k - 1], picks[k - 1], states[k], now);
    }
  }

  /** The residues of `n` consecutive counters modulo `n` are each residue once. */
  lemma ResiduesOnce(run: seq<nat>, cursor: nat, n: nat)
    requires n > 0 && |run| == n && forall k :: 0 <= k < n ==> run[k] == (cursor + k) % n
    ensures forall j :: 0 <= j < n ==> j in run
    ensures forall a, b :: 0 <= a < b < n ==> run[a] != run[b]
  {
    var r := cursor % n;
    forall j | 0 <= j < n
      ensures j in run
    {
      var d := if j >= r then j - r else j + n - r;
      ModShift(cursor, n, d);
      assert run[d] == j;
    }
    forall a, b | 0 <= a < b < n
      ensures run[a] != run[b]
    {
      ModShift(cursor, n, a);
      ModShift(cursor, n, b);
    }
  }

  /** So |ks| consecutive round-robin calls with every key usable hand out
      each key exactly once. */
  lemma RoundRobinVisitsEachOnce(states: seq<Turn>, picks: seq<nat>, now: int)
    requires RoundRobinTrace(states, picks, now) && |picks| == |states[0].keys| > 0
    requires forall j :: 0 <= j < |states[0].keys| ==> UsableAt(states[0].keys[j], now)
    ensures forall j :: 0 <= j < |picks| ==> j in picks
    ensures forall a, b :: 0 <= a < b < |picks| ==> picks[a] != picks[b]
  {
    RoundRobinCycles(states, picks, now, |picks|);
    ResiduesOnce(picks, states[0].cursor, |picks|);
  }

  /** When no key is usable but the earliest running cooldown belongs to an
      active key and ends within 90 seconds, `get_next_key` sleeps until
      then and hands out a key instead of raising. */
  lemma WaitThenSelect(ks: seq<ApiKeyStats>, cursor: nat, strategy: Strategy, now: int, pick: nat, i: nat)
    requires forall j :: 0 <= j < |ks| ==> !UsableAt(ks[j], now)
    requires i < |ks| && ks[i].isActive && ks[i].rateLimitedUntil.Some?
    requires ks[i].rateLimitedUntil.value - now < DefaultCooldown
    requires forall j :: 0 <= j < |ks| && ks[j].rateLimitedUntil.Some? && ks[j].rateLimitedUntil.value > now
               ==> ks[i].rateLimitedUntil.value <= ks[j].rateLimitedUntil.value
    ensures var sel := NextKey(ks, cursor, strategy, now, pick);
      sel.chosen.Success? && sel.clock == ks[i].rateLimitedUntil.value
  {
    NothingUsable(ks, now);
    EarliestIs(ks, now, i);
    assert ScanWithWait(ks, now).clock == ks[i].rateLimitedUntil.value;
    NextKeyOutcome(ks, cursor, strategy, now, pick);
  }

  /** With no key usable the scan changes nothing and finds nothing. */
  lemma NothingUsable(ks: seq<ApiKeyStats>, now: int)
    requires forall j :: 0 <= j < |ks| ==> !UsableAt(ks[j], now)
    ensures RefreshAll(ks, now) == ks && AvailableIndices(ks) == []
  {
    AvailableIndicesSpec(ks);
  }

  lemma EarliestIs(ks: seq<ApiKeyStats>, now: int, i: nat)
    requires i < |ks| && ks[i].rateLimitedUntil.Some? && ks[i].rateLimitedUntil.value > now
    requires forall j :: 0 <= j < |ks| && ks[j].rateLimitedUntil.Some? && ks[j].rateLimitedUntil.value > now
               ==> ks[i].rateLimitedUntil.value <= ks[j].rateLimitedUntil.value
    ensures EarliestCooldown(ks, now) == ks[i].rateLimitedUntil
  {
    EarliestCooldownSpec(ks, now);
    var e := EarliestCooldown(ks, now);
    var k :| 0 <= k < |ks| && ks[k].rateLimitedUntil == e;
  }

  /** The position of the first record with the given key: the search loop
      of `mark_rate_limited`, `mark_success` and `deactivate_key`. */
  function FirstIndexOf(ks: seq<ApiKeyStats>, key: string): (r: Option<nat>)
    ensures r.Some? ==> r.value < |ks| && ks[r.value].key == key
    ensures r.Some? ==> forall j :: 0 <= j < r.value ==> ks[j].key != key
    ensures r.None? ==> forall j :: 0 <= j < |ks| ==> ks[j].key != key
  {
    if |ks| == 0 then None
    else if ks[0].key == key then Some(0)
    else match FirstIndexOf(ks[1..], key)
      case None => None
      case Some(i) => Some(i + 1)
  }

  /** The cooldown `mark_rate_limited` applies: `retry_after` minutes, or
      the 1.5-minute default when it is `None` or 0 (Python's `or`). */
  function CooldownLength(retryAfterMinutes: Option<int>): int {
    if retryAfterMinutes.None? || retryAfterMinutes.value == 0 then DefaultCooldown
    else Seconds(retryAfterMinutes.value * 60)
  }

  /** `mark_rate_limited`: only the first record with the key changes; it
      cools down until `now` plus the cooldown and counts one more failure. */
  function WithRateLimit(ks: seq<ApiKeyStats>, key: string, retryAfterMinutes: Option<int>, now: int): (r: seq<ApiKeyStats>)
    ensures |r| == |ks|
    ensures forall j :: 0 <= j < |ks| && FirstIndexOf(ks, key) != Some(j) ==> r[j] == ks[j]
    ensures forall j :: 0 <= j < |ks| && FirstIndexOf(ks, key) == Some(j) ==>
      r[j] == ks[j].(rateLimitedUntil := Some(now + CooldownLength(retryAfterMinutes)),
                     consecutiveFailures := ks[j].consecutiveFailures + 1)
  {
    match FirstIndexOf(ks, key)
    case None => ks
    case Some(i) =>
      ks[i := ks[i].(rateLimitedUntil := Some(now + CooldownLength(retryAfterMinutes)),
                     consecutiveFailures := ks[i].consecutiveFailures + 1)]
  }

  /** `mark_success`: only the first record with the key changes, and only
      its failure count, which drops to 0. */
  function WithSuccess(ks: seq<ApiKeyStats>, key: string): (r: seq<ApiKeyStats>)
    ensures |r| == |ks|
    ensures forall j :: 0 <= j < |ks| && FirstIndexOf(ks, key) != Some(j) ==> r[j] == ks[j]
    ensures forall j :: 0 <= j < |ks| && FirstIndexOf(ks, key) == Some(j) ==> r[j] == ks[j].(consecutiveFailures := 0)
  {
    match FirstIndexOf(ks, key)
    case None => ks
    case Some(i) => ks[i := ks[i].(consecutiveFailures := 0)]
  }

  /** `deactivate_key`: only the first record with the key changes, and only
      its active flag, which becomes false. */
  function WithDeactivation(ks: seq<ApiKeyStats>, key: string): (r: seq<ApiKeyStats>)
    ensures |r| == |ks|
    ensures forall j :: 0 <= j < |ks| && FirstIndexOf(ks, key) != Some(j) ==> r[j] == ks[j]
    ensures forall j :: 0 <= j < |ks| && FirstIndexOf(ks, key) == Some(j) ==> r[j] == ks[j].(isActive := false)
  {
    match FirstIndexOf(ks, key)
    case None => ks
    case Some(i) => ks[i := ks[i].(isActive := false)]
  }

  /** Deactivation is permanent: no operation of the pool sets a key active
      again, and an inactive key is never handed out. */
  lemma InactiveStaysInactive(ks: seq<ApiKeyStats>, j: nat, key: string, retryAfterMinutes: Option<int>,
                              cursor: nat, strategy: Strategy, now: int, pick: nat)
    requires j < |ks| && !ks[j].isActive
    ensures !WithRateLimit(ks, key, retryAfterMinutes, now)[j].isActive
    ensures !WithSuccess(ks, key)[j].isActive
    ensures !WithDeactivation(ks, key)[j].isActive
    ensures !RefreshAll(ks, now)[j].isActive
    ensures !NextKey(ks, cursor, strategy, now, pick).keys[j].isActive
    ensures NextKey(ks, cursor, strategy, now, pick).chosen != Success(j)
  {
    NextKeyOutcome(ks, cursor, strategy, now, pick);
  }

  /** Python's `s[:n]`. */
  function Prefix(s: string, n: nat): (r: string)
    ensures |r| <= n && |r| <= |s| && r == s[..|r|]
    ensures |s| >= n ==> |r| == n
  {
    if |s| <= n then s else s[..n]
  }

  /** One entry of the "keys" list of `get_stats`. */
  datatype KeyInfo = KeyInfo(
    keyPreview: string, requests: nat, lastUsed: int, isActive: bool,
    rateLimited: bool, failures: nat, rateLimitedUntil: Option<int>)

  function InfoOf(k: ApiKeyStats): KeyInfo {
    KeyInfo(Prefix(k.key, 8) + "...", k.requestCount, k.lastUsed, k.isActive,
            k.rateLimitedUntil.Some?, k.consecutiveFailures, k.rateLimitedUntil)
  }

  /** The result of `get_stats`. */
  datatype PoolStats = PoolStats(
    totalKeys: nat, activeKeys: nat, availableKeys: nat, rateLimitedKeys: nat,
    strategy: string, keys: seq<KeyInfo>)

  function CountActive(ks: seq<ApiKeyStats>): (c: nat)
    ensures c <= |ks|
  {
    if |ks| == 0 then 0 else CountActive(ks[..|ks| - 1]) + (if ks[|ks| - 1].isActive then 1 else 0)
  }

  /** Keys whose cooldown ends after `now`, active or not. */
  function CountCooling(ks: seq<ApiKeyStats>, now: int): (c: nat)
    ensures c <= |ks|
  {
    if |ks| == 0 then 0
    else
      var k := ks[|ks| - 1];
      CountCooling(ks[..|ks| - 1], now) + (if k.rateLimitedUntil.Some? && k.rateLimitedUntil.value > now then 1 else 0)
  }

  /** `get_stats` on the records before its scan: "active_keys" is counted
      before the scan, the rest after it. */
  function Stats(ks: seq<ApiKeyStats>, strategy: string, now: int): PoolStats {
    var scanned := RefreshAll(ks, now);
    PoolStats(|ks|, CountActive(ks), |AvailableIndices(scanned)|, CountCooling(scanned, now), strategy,
              seq(|scanned|, i requires 0 <= i < |scanned| => InfoOf(scanned[i])))
  }

  lemma {:induction false} AvailableCounts(ks: seq<ApiKeyStats>, now: int)
    ensures |AvailableIndices(ks)| <= CountActive(ks)
    ensures |AvailableIndices(ks)| + CountCooling(ks, now) <= |ks|
  {
    if |ks| > 0 {
      AvailableCounts(ks[..|ks| - 1], now);
    }
  }

  /** In the statistics, available keys are active keys, and no key is
      counted both as available and as rate-limited. */
  lemma StatsBounds(ks: seq<ApiKeyStats>, strategy: string, now: int)
    ensures var st := Stats(ks, strategy, now);
      && st.availableKeys <= st.activeKeys <= st.totalKeys
      && st.availableKeys + st.rateLimitedKeys <= st.totalKeys
      && |st.keys| == st.totalKeys
  {
    var scanned := RefreshAll(ks, now);
    AvailableCounts(scanned, now);
    assert CountActive(scanned) == CountActive(ks) by {
      ActiveUnchangedByScan(ks, now, |ks|);
      assert scanned[..|ks|] == scanned && ks[..|ks|] == ks;
    }
  }

  lemma {:induction false} ActiveUnchangedByScan(ks: seq<ApiKeyStats>, now: int, n: nat)
    requires n <= |ks|
    ensures CountActive(RefreshAll(ks, now)[..n]) == CountActive(ks[..n])
  {
    if n > 0 {
      ActiveUnchangedByScan(ks, now, n - 1);
      assert RefreshAll(ks, now)[..n][..n - 1] == RefreshAll(ks, now)[..n - 1];
      assert ks[..n][..n - 1] == ks[..n - 1];
    }
  }

  /** `[key.strip() for key in parts if key.strip()]` */
  function CleanKeys(parts: seq<string>): (keys: seq<string>)
    ensures |keys| <= |parts|
  {
    if |parts| == 0 then []
    else
      var k := Strip(parts[0]);
      var rest := CleanKeys(parts[1..]);
      if k != "" then [k] + rest else rest
  }

  /** The key-list parsing of `initialize_api_pool`: the variable's value
      (empty when unset) split on commas, stripped, empty items dropped. */
  function ParseApiKeys(envVar: string, keysStr: string): (r: Result<seq<string>, string>)
    ensures keysStr == "" ==> r == Failure("Environment variable " + envVar + " not found or empty")
    ensures keysStr != "" && CleanKeys(Split(keysStr, ',')) == [] ==> r == Failure("No valid API keys found in " + envVar)
    ensures r.Success? <==> keysStr != "" && CleanKeys(Split(keysStr, ',')) != []
    ensures r.Success? ==> r.value == CleanKeys(Split(keysStr, ','))
    ensures r.Success? ==> |r.value| > 0 && forall i :: 0 <= i < |r.value| ==> r.value[i] != "" && IsStripped(r.value[i])
  {
    CleanKeysAreClean(Split(keysStr, ','));
    if keysStr == "" then Failure("Environment variable " + envVar + " not found or empty")
    else
      var keys := CleanKeys(Split(keysStr, ','));
      if |keys| == 0 then Failure("No valid API keys found in " + envVar) else Success(keys)
  }

  /** Every cleaned key is non-empty and stripped. */
  lemma {:induction false} CleanKeysAreClean(parts: seq<string>)
    ensures forall i :: 0 <= i < |CleanKeys(parts)| ==> CleanKeys(parts)[i] != "" && IsStripped(CleanKeys(parts)[i])
  {
    if |parts| > 0 {
      CleanKeysAreClean(parts[1..]);
      StripIsStripped(parts[0]);
    }
  }

  /** `pos` lists, in increasing order, exactly the positions of `xs` that
      do not hold `blank`, and `kept` holds their elements in the same
      order. */
  ghost predicate KeptAt<T>(xs: seq<T>, blank: T, pos: seq<nat>, kept: seq<T>) {
    && |pos| == |kept|
    && (forall k :: 0 <= k < |pos| ==> pos[k] < |xs| && kept[k] == xs[pos[k]])
    && (forall k, l :: 0 <= k < l < |pos| ==> pos[k] < pos[l])
    && (forall i :: 0 <= i < |xs| ==> (xs[i] != blank <==> i in pos))
  }

  /** Every part, stripped. */
  ghost function StripAll(parts: seq<string>): (texts: seq<string>)
    ensures |texts| == |parts|
    ensures forall i :: 0 <= i < |parts| ==> texts[i] == Strip(parts[i])
  {
    if |parts| == 0 then [] else [Strip(parts[0])] + StripAll(parts[1..])
  }

  /** The cleaned list is the stripped parts, in their order, at exactly
      the positions whose stripped text is non-empty. */
  lemma {:induction false} CleanKeysSpec(parts: seq<string>)
    ensures exists pos :: KeptAt(StripAll(parts), "", pos, CleanKeys(parts))
  {
    if |parts| > 0 {
      CleanKeysSpec(parts[1..]);
      var tail :| KeptAt(StripAll(parts[1..]), "", tail, CleanKeys(parts[1..]));
      var pos := KeptAtStep(Strip(parts[0]), StripAll(parts[1..]), "", tail, CleanKeys(parts[1..]));
      assert StripAll(parts) == [Strip(parts[0])] + StripAll(parts[1..]);
      assert KeptAt(StripAll(parts), "", pos, CleanKeys(parts));
    } else {
      assert KeptAt(StripAll(parts), "", [], CleanKeys(parts));
    }
  }

  /** One more element in front: the positions of the rest move up by one,
      and position 0 joins them when it does not hold `blank`. */
  lemma KeptAtStep<T>(x: T, ys: seq<T>, blank: T, tail: seq<nat>, rest: seq<T>) returns (pos: seq<nat>)
    requires KeptAt(ys, blank, tail, rest)
    ensures x != blank ==> KeptAt([x] + ys, blank, pos, [x] + rest)
    ensures x == blank ==> KeptAt([x] + ys, blank, pos, rest)
  {
    var xs := [x] + ys;
    assert xs[1..] == ys;
    KeptAtShift(xs, blank, tail, rest);
    if x != blank {
      pos := [0] + Shifted(tail);
      KeptAtCons(xs, blank, Shifted(tail), rest);
    } else {
      pos := Shifted(tail);
    }
  }

  /** The positions of the rest, moved up by one, are positions in `xs`. */
  lemma KeptAtShift<T>(xs: seq<T>, blank: T, tail: seq<nat>, rest: seq<T>)
    requires |xs| > 0 && KeptAt(xs[1..], blank, tail, rest)
    ensures |Shifted(tail)| == |rest|
    ensures forall k :: 0 <= k < |tail| ==> 0 < Shifted(tail)[k] < |xs| && rest[k] == xs[Shifted(tail)[k]]
    ensures forall k, l :: 0 <= k < l < |tail| ==> Shifted(tail)[k] < Shifted(tail)[l]
    ensures forall i :: 0 <= i < |xs| ==> (xs[i] != blank <==> (i == 0 && xs[0] != blank) || i in Shifted(tail))
  {
    var shifted := Shifted(tail);
    forall i | 0 <= i < |xs|
      ensures xs[i] != blank <==> (i == 0 && xs[0] != blank) || i in shifted
    {
      ShiftedMembers(tail, i);
      if i > 0 {
        assert xs[1..][i - 1] == xs[i];
      }
    }
    forall k | 0 <= k < |shifted|
      ensures shifted[k] < |xs| && rest[k] == xs[shifted[k]]
    {
      assert xs[1..][tail[k]] == xs[shifted[k]];
    }
  }

  /** Position 0 in front of later positions, its element in front of
      theirs. */
  lemma KeptAtCons<T>(xs: seq<T>, blank: T, later: seq<nat>, kept: seq<T>)
    requires |xs| > 0 && xs[0] != blank && |later| == |kept|
    requires forall k :: 0 <= k < |later| ==> 0 < later[k] < |xs| && kept[k] == xs[later[k]]
    requires forall k, l :: 0 <= k < l < |later| ==> later[k] < later[l]
    requires forall i :: 0 <= i < |xs| ==> (xs[i] != blank <==> i == 0 || i in later)
    ensures KeptAt(xs, blank, [0] + later, [xs[0]] + kept)
  {
    var pos, all := [0] + later, [xs[0]] + kept;
    forall k | 0 <= k < |pos|
      ensures pos[k] < |xs| && all[k] == xs[pos[k]]
    {
      if k > 0 {
        assert pos[k] == later[k - 1] && all[k] == kept[k - 1];
      }
    }
    forall k, l | 0 <= k < l < |pos|
      ensures pos[k] < pos[l]
    {
      assert pos[l] == later[l - 1];
      if k > 0 {
        assert pos[k] == later[k - 1];
      }
    }
    forall i | 0 <= i < |xs|
      ensures xs[i] != blank <==> i in pos
    {
      assert i in pos <==> i == 0 || i in later;
    }
  }

  /** Every position one further on. */
  function Shifted(pos: seq<nat>): (r: seq<nat>)
    ensures |r| == |pos| && forall k :: 0 <= k < |pos| ==> r[k] == pos[k] + 1
  {
    seq(|pos|, k requires 0 <= k < |pos| => pos[k] + 1)
  }

  lemma ShiftedMembers(pos: seq<nat>, i: nat)
    ensures i in Shifted(pos) <==> i > 0 && i - 1 in pos
  {
    if i > 0 && i - 1 in pos {
      var k :| 0 <= k < |pos| && pos[k] == i - 1;
      assert Shifted(pos)[k] == i;
    }
  }

  /** A key is in the cleaned list iff it is non-empty and some part strips
      to it. */
  lemma {:induction false} CleanKeysMembers(parts: seq<string>, x: string)
    ensures x in CleanKeys(parts) <==> x != "" && exists i :: 0 <= i < |parts| && Strip(parts[i]) == x
  {
    if |parts| > 0 {
      CleanKeysMembers(parts[1..], x);
      assert forall i :: 1 <= i < |parts| ==> parts[1..][i - 1] == parts[i];
      if exists i :: 1 <= i < |parts| && Strip(parts[i]) == x {
        var i :| 1 <= i < |parts| && Strip(parts[i]) == x;
        assert Strip(parts[1..][i - 1]) == x;
      }
    }
  }

  lemma {:induction false} CleanKeysKeepsClean(parts: seq<string>)
    requires forall i :: 0 <= i < |parts| ==> parts[i] != "" && IsStripped(parts[i])
    ensures CleanKeys(parts) == parts
  {
    if |parts| > 0 {
      StripIdentity(parts[0]);
      CleanKeysKeepsClean(parts[1..]);
      assert parts == [parts[0]] + parts[1..];
    }
  }

  /** A comma-joined list of non-empty keys without surrounding whitespace
      or commas parses back to the same list. */
  lemma ParseJoinRoundTrip(envVar: string, keys: seq<string>)
    requires |keys| > 0
    requires forall i :: 0 <= i < |keys| ==> keys[i] != "" && IsStripped(keys[i]) && ',' !in keys[i]
    ensures ParseApiKeys(envVar, Join(keys, ",")) == Success(keys)
  {
    SplitJoin(keys, ',');
    CleanKeysKeepsClean(keys);
    JoinNonEmpty(keys, ",");
  }

  lemma {:induction false} JoinNonEmpty(parts: seq<string>, sep: string)
    requires |parts| > 0 && parts[0] != ""
    ensures Join(parts, sep) != ""
  {
  }

  /** One more record extends the available list by its position when it
      is available. */
  lemma AvailableStep(ks: seq<ApiKeyStats>, i: nat)
    requires i < |ks|
    ensures AvailableIndices(ks[..i + 1]) == AvailableIndices(ks[..i]) + (if IsAvailable(ks[i]) then [i] else [])
  {
    assert ks[..i + 1][..i] == ks[..i];
  }

  /** `ApiKeyPool`: the records in list order, the strategy name and the
      round-robin cursor `current_index`. The lock only serialises the
      methods, which run here one at a time. */
  class ApiKeyPool {
    var keysStats: seq<ApiKeyStats>
    const strategy: string
    var currentIndex: nat

    constructor(apiKeys: seq<string>, strategy: string, now: int)
      ensures keysStats == InitialStats(apiKeys, now)
      ensures this.strategy == strategy && currentIndex == 0
    {
      keysStats := InitialStats(apiKeys, now);
      this.strategy := strategy;
      currentIndex := 0;
    }

    /** `_get_available_keys`: clear every expired cooldown of an active key
        and list the available positions. */
    method GetAvailableKeys(now: int) returns (available: seq<nat>)
      modifies this
      ensures keysStats == RefreshAll(old(keysStats), now)
      ensures available == AvailableIndices(keysStats)
      ensures currentIndex == old(currentIndex)
    {
      ghost var target := RefreshAll(keysStats, now);
      var i := 0;
      available := [];
      while i < |keysStats|
        invariant |keysStats| == |target| && 0 <= i <= |keysStats|
        invariant forall j :: 0 <= j < i ==> keysStats[j] == target[j]
        invariant forall j :: i <= j < |keysStats| ==> keysStats[j] == old(keysStats)[j]
        invariant available == AvailableIndices(target[..i])
        invariant currentIndex == old(currentIndex)
      {
        var k := keysStats[i];
        if k.isActive {
          if k.rateLimitedUntil.Some? && now >= k.rateLimitedUntil.value {
            k := k.(rateLimitedUntil := None, consecutiveFailures := 0);
            keysStats := keysStats[i := k];
          }
          if k.rateLimitedUntil.None? {
            available := available + [i];
          }
        }
        assert k == target[i];
        AvailableStep(target, i);
        i := i + 1;
      }
      assert target[..i] == target;
    }

    /** `_round_robin_selection`: probe up to one position per key from the
        cursor, advancing it each time; hand out the first available key
        met, else the first available key; `None` when nothing is available. */
    method RoundRobinSelection(available: seq<nat>, now: int) returns (key: Option<string>)
      requires available == AvailableIndices(keysStats)
      modifies this
      ensures |available| == 0 ==> key == None && keysStats == old(keysStats) && currentIndex == old(currentIndex)
      ensures |available| > 0 ==>
        var p := RoundRobinPick(old(keysStats), available, old(currentIndex));
        && key == Some(old(keysStats)[p.chosen].key)
        && keysStats == old(keysStats)[p.chosen := Touched(old(keysStats)[p.chosen], now)]
        && currentIndex == p.cursor
    {
      if |available| == 0 {
        return None;
      }
      AvailableMembers(keysStats);
      var n := |keysStats|;
      var t := 0;
      while t < n
        invariant 0 <= t <= n && currentIndex == old(currentIndex) + t
        invariant keysStats == old(keysStats)
        invariant ProbeOffset(keysStats, old(currentIndex), 0) == ProbeOffset(keysStats, old(currentIndex), t)
      {
        var position := currentIndex % n;
        currentIndex := currentIndex + 1;
        if position in available {
          assert Hit(keysStats, old(currentIndex), t);
          keysStats := keysStats[position := Touched(keysStats[position], now)];
          return Some(keysStats[position].key);
        }
        t := t + 1;
      }
      var first := available[0];
      keysStats := keysStats[first := Touched(keysStats[first], now)];
      key := Some(keysStats[first].key);
    }

    /** `_random_selection`: `random.choice` is the oracle `pick`. */
    method RandomSelection(available: seq<nat>, now: int, pick: nat) returns (key: string)
      requires |available| > 0 && available == AvailableIndices(keysStats)
      modifies this
      ensures var c := available[pick % |available|];
        key == old(keysStats)[c].key && keysStats == old(keysStats)[c := Touched(old(keysStats)[c], now)]
      ensures currentIndex == old(currentIndex)
    {
      var c := available[pick % |available|];
      keysStats := keysStats[c := Touched(keysStats[c], now)];
      key := keysStats[c].key;
    }

    /** `_least_used_selection`. */
    method LeastUsedSelection(available: seq<nat>, now: int) returns (key: string)
      requires |available| > 0 && available == AvailableIndices(keysStats)
      modifies this
      ensures var c := available[LeastUsedPosition(old(keysStats), available)];
        key == old(keysStats)[c].key && keysStats == old(keysStats)[c := Touched(old(keysStats)[c], now)]
      ensures currentIndex == old(currentIndex)
    {
      var c := available[LeastUsedPosition(keysStats, available)];
      keysStats := keysStats[c := Touched(keysStats[c], now)];
      key := keysStats[c].key;
    }

    /** `get_next_key` at clock reading `now`; `clock` is the reading after
        the sleep of `_wait_for_cooldown`, if any. The exception is the
        `Failure`; the scans' changes to the records stay. */
    method GetNextKey(now: int, pick: nat) returns (r: Result<string, string>, clock: int)
      modifies this
      ensures var sel := NextKey(old(keysStats), old(currentIndex), StrategyOf(strategy), now, pick);
        && keysStats == sel.keys && currentIndex == sel.cursor && clock == sel.clock
        && r == match sel.chosen
                case Success(c) => Success(sel.keys[c].key)
                case Failure(e) => Failure(e)
    {
      var available := GetAvailableKeys(now);
      clock := now;
      if |available| == 0 {
        clock := now + CooldownWait(keysStats, now);
        available := GetAvailableKeys(clock);
      }
      assert Scan(keysStats, clock) == ScanWithWait(old(keysStats), now);
      if |available| == 0 {
        return Failure(ExhaustedMessage), clock;
      }
      NextKeyFound(old(keysStats), old(currentIndex), StrategyOf(strategy), now, pick);
      var key := SelectByStrategy(available, clock, pick);
      r := Success(key);
    }

    /** The dispatch on the strategy name in `get_next_key`: an unknown
        name selects round robin. */
    method SelectByStrategy(available: seq<nat>, now: int, pick: nat) returns (key: string)
      requires |available| > 0 && available == AvailableIndices(keysStats)
      modifies this
      ensures var p := Choose(old(keysStats), available, old(currentIndex), StrategyOf(strategy), pick);
        && key == old(keysStats)[p.chosen].key
        && keysStats == old(keysStats)[p.chosen := Touched(old(keysStats)[p.chosen], now)]
        && currentIndex == p.cursor
    {
      if strategy == "round_robin" {
        var k := RoundRobinSelection(available, now);
        key := k.value;
      } else if strategy == "random" {
        key := RandomSelection(available, now, pick);
      } else if strategy == "least_used" {
        key := LeastUsedSelection(available, now);
      } else {
        var k := RoundRobinSelection(available, now);
        key := k.value;
      }
    }

    /** `mark_rate_limited`, at clock reading `now`. */
    method MarkRateLimited(apiKey: string, retryAfterMinutes: Option<int>, now: int)
      modifies this
      ensures keysStats == WithRateLimit(old(keysStats), apiKey, retryAfterMinutes, now)
      ensures currentIndex == old(currentIndex)
    {
      var i := 0;
      while i < |keysStats|
        invariant 0 <= i <= |keysStats| && keysStats == old(keysStats)
        invariant forall j :: 0 <= j < i ==> keysStats[j].key != apiKey
      {
        if keysStats[i].key == apiKey {
          assert FirstIndexOf(keysStats, apiKey) == Some(i);
          var until := now + CooldownLength(retryAfterMinutes);
          keysStats := keysStats[i := keysStats[i].(rateLimitedUntil := Some(until),
                                                   consecutiveFailures := keysStats[i].consecutiveFailures + 1)];
          return;
        }
        i := i + 1;
      }
    }

    /** `mark_success`. */
    method MarkSuccess(apiKey: string)
      modifies this
      ensures keysStats == WithSuccess(old(keysStats), apiKey)
      ensures currentIndex == old(currentIndex)
    {
      var i := 0;
      while i < |keysStats|
        invariant 0 <= i <= |keysStats| && keysStats == old(keysStats)
        invariant forall j :: 0 <= j < i ==> keysStats[j].key != apiKey
      {
        if keysStats[i].key == apiKey {
          assert FirstIndexOf(keysStats, apiKey) == Some(i);
          keysStats := keysStats[i := keysStats[i].(consecutiveFailures := 0)];
          return;
        }
        i := i + 1;
      }
    }

    /** `deactivate_key`. */
    method DeactivateKey(apiKey: string)
      modifies this
      ensures keysStats == WithDeactivation(old(keysStats), apiKey)
      ensures currentIndex == old(currentIndex)
    {
      var i := 0;
      while i < |keysStats|
        invariant 0 <= i <= |keysStats| && keysStats == old(keysStats)
        invariant forall j :: 0 <= j < i ==> keysStats[j].key != apiKey
      {
        if keysStats[i].key == apiKey {
          assert FirstIndexOf(keysStats, apiKey) == Some(i);
          keysStats := keysStats[i := keysStats[i].(isActive := false)];
          return;
        }
        i := i + 1;
      }
    }

    /** `get_stats`, at clock reading `now`; it runs the availability scan. */
    method GetStats(now: int) returns (st: PoolStats)
      modifies this
      ensures st == Stats(old(keysStats), strategy, now)
      ensures keysStats == RefreshAll(old(keysStats), now) && currentIndex == old(currentIndex)
    {
      var total := |keysStats|;
      var active := CountActive(keysStats);
      var available := GetAvailableKeys(now);
      var cooling := CountCooling(keysStats, now);
      var infos: seq<KeyInfo> := [];
      var i := 0;
      while i < |keysStats|
        invariant 0 <= i <= |keysStats| && |infos| == i
        invariant forall j :: 0 <= j < i ==> infos[j] == InfoOf(keysStats[j])
      {
        infos := infos + [InfoOf(keysStats[i])];
        i := i + 1;
      }
      st := PoolStats(total, active, |available|, cooling, strategy, infos);
      ghost var ks := keysStats;
      assert infos == seq(|ks|, j requires 0 <= j < |ks| => InfoOf(ks[j]));
    }
  }

  /** `initialize_api_pool`: `keysStr` is the variable's value, "" when it
      is unset; the `ValueError` is the `Failure`. */
  method InitializeApiPool(envVar: string, keysStr: string, strategy: string, now: int)
    returns (r: Result<ApiKeyPool, string>)
    ensures ParseApiKeys(envVar, keysStr).Failure? ==> r == Failure(ParseApiKeys(envVar, keysStr).error)
    ensures ParseApiKeys(envVar, keysStr).Success? ==>
      && r.Success? && fresh(r.value)
      && r.value.keysStats == InitialStats(ParseApiKeys(envVar, keysStr).value, now)
      && r.value.strategy == strategy && r.value.currentIndex == 0
  {
    if keysStr == "" {
      return Failure("Environment variable " + envVar + " not found or empty");
    }
    var apiKeys := CleanKeys(Split(keysStr, ','));
    if |apiKeys| == 0 {
      return Failure("No valid API keys found in " + envVar);
    }
    var pool := new ApiKeyPool(apiKeys, strategy, now);
    r := Success(pool);
  }
}
