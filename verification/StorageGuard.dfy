/**
 * server/src/capacity/StorageGuard.js: storage reservations of one owner, kept as a pending
 * counter beside one expiring key per reservation.
 */
module StorageGuard {
  import opened Basics
  import opened Redis

  type AssetId = string

  const RESERVATION_TTL_SEC := 4_200

  /** The two kinds of key the scripts touch, and the clock (in seconds) that expires them. */
  datatype Keys = Keys(now: int, pending: Option<Timed<int>>, reservations: map<AssetId, Timed<int>>)

  /** What GET reads from the counter; an expired or missing key counts as '0'. */
  function PendingBytes(k: Keys): int {
    if k.pending.Some? && k.now < k.pending.value.expiresAt then k.pending.value.value else 0
  }

  predicate Live(k: Keys, asset: AssetId) {
    LiveIn(k.reservations, asset, k.now)
  }

  /** What GET reads from a reservation key. */
  function ReservedBytes(k: Keys, asset: AssetId): int {
    if Live(k, asset) then k.reservations[asset].value else 0
  }

  /** Effect of a granted RESERVE. */
  function Reserved(k: Keys, asset: AssetId, bytes: int): Keys {
    var expiry := k.now + RESERVATION_TTL_SEC;
    k.(pending := Some(Timed(PendingBytes(k) + bytes, expiry)),
       reservations := k.reservations[asset := Timed(bytes, expiry)])
  }

  /** Effect of RELEASE: the reservation is gone and the counter drops by it, never below zero. */
  function Released(k: Keys, asset: AssetId): Keys {
    var bytes := ReservedBytes(k, asset);
    var remaining := PendingBytes(k) - bytes;
    if bytes == 0 then k
    else Keys(k.now,
              if remaining > 0 && k.pending.Some? then Some(Timed(remaining, k.pending.value.expiresAt)) else None,
              k.reservations - {asset})
  }

  // ---------------------------------------------------------------- the scripts

  datatype Grant = Granted(pendingBytes: int, availableBytes: int) | Refused(pendingBytes: int, availableBytes: int)

  /** Redis as the two Lua scripts see it. */
  class StorageRedis {
    var now: int
    var pending: Option<Timed<int>>
    var reservations: map<AssetId, Timed<int>>

    ghost function View(): Keys
      reads this
    {
      Keys(now, pending, reservations)
    }

    constructor (now: int)
      ensures View() == Keys(now, None, map[])
    {
      this.now := now;
      pending := None;
      reservations := map[];
    }

    method GetPending() returns (bytes: int)
      ensures bytes == PendingBytes(View())
    {
      bytes := if pending.Some? && now < pending.value.expiresAt then pending.value.value else 0;
    }

    method GetReservation(asset: AssetId) returns (bytes: int)
      ensures bytes == ReservedBytes(View(), asset)
    {
      bytes := if asset in reservations && now < reservations[asset].expiresAt then reservations[asset].value else 0;
    }

    /** RESERVE: decide on committed plus pending, then INCRBY, EXPIRE and SET ... EX. */
    method Reserve(asset: AssetId, bytes: int, quota: int, committed: int) returns (grant: Grant)
      modifies this
      ensures grant.Granted? <==> committed + old(PendingBytes(View())) + bytes <= quota
      ensures grant.Granted? ==> View() == Reserved(old(View()), asset, bytes)
      ensures grant.Granted? ==> grant.pendingBytes == PendingBytes(View())
      ensures grant.Granted? ==> grant.availableBytes == quota - committed - PendingBytes(View())
      ensures grant.Refused? ==> View() == old(View())
    {
      var current := GetPending();
      var available := quota - committed - current;
      if bytes > available {
        return Refused(current, available);
      }
      pending := Some(Timed(current + bytes, if pending.Some? then pending.value.expiresAt else now));
      pending := Some(pending.value.(expiresAt := now + RESERVATION_TTL_SEC));
      reservations := reservations[asset := Timed(bytes, now + RESERVATION_TTL_SEC)];
      return Granted(current + bytes, available - bytes);
    }

    /** RELEASE: DEL the reservation, then SET the counter with KEEPTTL or DEL it. */
    method Release(asset: AssetId) returns (bytes: int)
      modifies this
      ensures bytes == ReservedBytes(old(View()), asset)
      ensures View() == Released(old(View()), asset)
    {
      bytes := GetReservation(asset);
      if bytes == 0 {
        return 0;
      }
      reservations := reservations - {asset};
      var current := GetPending();
      var remaining := current - bytes;
      if remaining > 0 && pending.Some? {
        pending := Some(Timed(remaining, pending.value.expiresAt));
      } else {
        pending := None;
      }
    }

    /**
     * assertStorageAvailable: without an asset id an intent check that changes nothing, with one
     * a reservation. True stands for a normal return, false for the quota error thrown.
     */
    method AssertStorageAvailable(sizeBytes: int, asset: Option<AssetId>, quota: int, committed: int) returns (fits: bool)
      modifies this
      ensures fits <==> committed + old(PendingBytes(View())) + sizeBytes <= quota
      ensures View() == if fits && asset.Some? then Reserved(old(View()), asset.value, sizeBytes) else old(View())
    {
      if asset.None? {
        var current := GetPending();
        return committed + current + sizeBytes <= quota;
      }
      var grant := Reserve(asset.value, sizeBytes, quota, committed);
      return grant.Granted?;
    }
  }

  // ---------------------------------------------------------------- what is read later

  /** The same keys at a later instant, if nothing is written meanwhile. */
  function At(k: Keys, t: int): Keys {
    k.(now := t)
  }

  /** A reservation and the counter it raised are read for exactly 70 minutes; other reservations are not touched. */
  lemma ReservedIsReadUntilExpiry(k: Keys, asset: AssetId, bytes: int, t: int, other: AssetId)
    requires k.now <= t
    ensures var k' := At(Reserved(k, asset, bytes), t);
            && ReservedBytes(k', asset) == (if t < k.now + 4_200 then bytes else 0)
            && PendingBytes(k') == (if t < k.now + 4_200 then PendingBytes(k) + bytes else 0)
            && (other != asset ==> ReservedBytes(k', other) == ReservedBytes(At(k, t), other))
  {
  }

  /** After a release the counter is lower by the reserved bytes, but not below zero, for as long as it would have lasted. */
  lemma ReleasedIsReadUntilExpiry(k: Keys, asset: AssetId, t: int, other: AssetId)
    requires k.now <= t && ReservedBytes(k, asset) >= 0
    ensures var k', bytes := At(Released(k, asset), t), ReservedBytes(k, asset);
            && (bytes == 0 ==> k' == At(k, t))
            && (bytes > 0 ==> ReservedBytes(k', asset) == 0 && PendingBytes(k') == Max(0, PendingBytes(At(k, t)) - bytes))
            && (other != asset ==> ReservedBytes(k', other) == ReservedBytes(At(k, t), other))
  {
  }

  // ---------------------------------------------------------------- live reservations

  /** The bytes of all live reservations together. */
  ghost function LiveBytes(r: map<AssetId, Timed<int>>, now: int): int {
    if r == map[] then 0
    else
      var a :| a in r;
      (if now < r[a].expiresAt then r[a].value else 0) + LiveBytes(r - {a}, now)
  }

  /** The sum does not depend on the order in which the reservations are taken. */
  lemma {:induction false} LiveBytesSplit(r: map<AssetId, Timed<int>>, now: int, asset: AssetId)
    requires asset in r
    ensures LiveBytes(r, now) == (if now < r[asset].expiresAt then r[asset].value else 0) + LiveBytes(r - {asset}, now)
    decreases |r|
  {
    var a :| a in r && LiveBytes(r, now) == (if now < r[a].expiresAt then r[a].value else 0) + LiveBytes(r - {a}, now);
    if a != asset {
      LiveBytesSplit(r - {a}, now, asset);
      LiveBytesSplit(r - {asset}, now, a);
      assert r - {a} - {asset} == r - {asset} - {a};
    }
  }

  ghost predicate NonNegative(r: map<AssetId, Timed<int>>) {
    forall a :: a in r ==> r[a].value >= 0
  }

  lemma {:induction false} LiveBytesFade(r: map<AssetId, Timed<int>>, now: int, later: int)
    requires NonNegative(r) && now <= later
    ensures 0 <= LiveBytes(r, later) <= LiveBytes(r, now)
    decreases |r|
  {
    if r != map[] {
      var a :| a in r;
      LiveBytesSplit(r, now, a);
      LiveBytesSplit(r, later, a);
      LiveBytesFade(r - {a}, now, later);
    }
  }

  lemma {:induction false} NoneLive(r: map<AssetId, Timed<int>>, now: int)
    requires forall a :: a in r && now < r[a].expiresAt ==> r[a].value == 0
    ensures LiveBytes(r, now) == 0
    decreases |r|
  {
    if r != map[] {
      var a :| a in r;
      LiveBytesSplit(r, now, a);
      NoneLive(r - {a}, now);
    }
  }

  lemma AtLeastOne(r: map<AssetId, Timed<int>>, now: int, asset: AssetId)
    requires NonNegative(r) && asset in r && now < r[asset].expiresAt
    ensures LiveBytes(r, now) >= r[asset].value
  {
    LiveBytesSplit(r, now, asset);
    LiveBytesFade(r - {asset}, now, now);
  }

  // ---------------------------------------------------------------- the counter covers its parts

  /** The counter is at least the live reservations and outlives each that holds bytes. */
  ghost predicate Covered(k: Keys) {
    && NonNegative(k.reservations)
    && PendingBytes(k) >= LiveBytes(k.reservations, k.now)
    && (k.pending.Some? ==> k.pending.value.expiresAt <= k.now + RESERVATION_TTL_SEC)
    && (forall a :: Live(k, a) && k.reservations[a].value > 0 ==>
          k.pending.Some? && k.reservations[a].expiresAt <= k.pending.value.expiresAt)
    && (forall a :: a in k.reservations ==> k.reservations[a].expiresAt <= k.now + RESERVATION_TTL_SEC)
  }

  lemma ElapseKeepsCover(k: Keys, seconds: nat)
    requires Covered(k)
    ensures Covered(k.(now := k.now + seconds))
    ensures PendingBytes(k.(now := k.now + seconds)) <= Max(0, PendingBytes(k))
  {
    var later := k.now + seconds;
    LiveBytesFade(k.reservations, k.now, later);
    if k.pending.None? || k.pending.value.expiresAt <= later {
      NoneLive(k.reservations, later);
    }
  }

  /** What the counter holds beyond the live reservations: bytes whose reservation is gone or replaced. */
  ghost function Slack(k: Keys): int {
    PendingBytes(k) - LiveBytes(k.reservations, k.now)
  }

  /** Reserving adds exactly its bytes; only reserving an asset again leaves the old bytes behind in the counter. */
  lemma ReserveKeepsCover(k: Keys, asset: AssetId, bytes: nat)
    requires Covered(k)
    ensures Covered(Reserved(k, asset, bytes))
    ensures Slack(Reserved(k, asset, bytes)) == Slack(k) + ReservedBytes(k, asset)
  {
    var k' := Reserved(k, asset, bytes);
    LiveBytesSplit(k'.reservations, k.now, asset);
    assert k'.reservations - {asset} == k.reservations - {asset};
    if asset in k.reservations {
      LiveBytesSplit(k.reservations, k.now, asset);
    } else {
      assert k.reservations - {asset} == k.reservations;
    }
  }

  /** Releasing gives back exactly the reserved bytes, in the counter and in the live total. */
  lemma ReleaseKeepsCover(k: Keys, asset: AssetId)
    requires Covered(k)
    ensures Covered(Released(k, asset))
    ensures PendingBytes(Released(k, asset)) == PendingBytes(k) - ReservedBytes(k, asset)
    ensures Slack(Released(k, asset)) == Slack(k)
    ensures !Live(Released(k, asset), asset) || ReservedBytes(k, asset) == 0
  {
    if ReservedBytes(k, asset) != 0 {
      var k' := Released(k, asset);
      LiveBytesSplit(k.reservations, k.now, asset);
      LiveBytesFade(k'.reservations, k.now, k.now);
      if LiveBytes(k'.reservations, k.now) == 0 {
        forall a | Live(k', a) ensures k'.reservations[a].value == 0 {
          AtLeastOne(k'.reservations, k.now, a);
        }
      }
    }
  }

  // ---------------------------------------------------------------- quota over whole runs

  /**
   * One owner's account. A commit is two calls, each of which may fail by itself: the release of
   * the reservation, and the adjustment of the recorded usage by the size of the upload. Bytes
   * between the two are in flight.
   */
  datatype Account = Account(keys: Keys, committed: nat, inFlight: nat)

  /**
   * A reservation brings the usage it read before the script ran, which may be old. A commit goes
   * through whether its reservation is still live or not, and whatever its size is.
   */
  datatype Step =
    | Elapse(seconds: nat)
    | ReserveStep(asset: AssetId, bytes: nat, seen: nat)
    | ReleaseStep(asset: AssetId)
    | BeginCommit(asset: AssetId, size: nat, released: bool)
    | FinishCommit(bytes: nat)
    | Delete(bytes: nat)

  ghost predicate IsGranted(quota: nat, s: Account, step: Step) {
    step.ReserveStep? && step.seen + PendingBytes(s.keys) + step.bytes <= quota
  }

  ghost function Apply(quota: nat, s: Account, step: Step): Account {
    match step
    case Elapse(seconds) => s.(keys := s.keys.(now := s.keys.now + seconds))
    case ReserveStep(asset, bytes, seen) =>
      if IsGranted(quota, s, step) then s.(keys := Reserved(s.keys, asset, bytes)) else s
    case ReleaseStep(asset) => s.(keys := Released(s.keys, asset))
    case BeginCommit(asset, size, released) =>
      s.(keys := if released then Released(s.keys, asset) else s.keys, inFlight := s.inFlight + size)
    case FinishCommit(bytes) =>
      if bytes <= s.inFlight then s.(committed := s.committed + bytes, inFlight := s.inFlight - bytes) else s
    case Delete(bytes) => s.(committed := Max(0, s.committed - bytes))
  }

  ghost function ApplyAll(quota: nat, s: Account, steps: seq<Step>): Account {
    if steps == [] then s
    else Apply(quota, ApplyAll(quota, s, steps[..|steps| - 1]), steps[|steps| - 1])
  }

  lemma Prefix(quota: nat, s: Account, steps: seq<Step>, i: nat)
    requires i < |steps|
    ensures ApplyAll(quota, s, steps[..i + 1]) == Apply(quota, ApplyAll(quota, s, steps[..i]), steps[i])
  {
    assert steps[..i + 1][..i] == steps[..i];
  }

  ghost predicate Empty(s: Account) {
    s.keys.pending == None && s.keys.reservations == map[] && s.inFlight == 0
  }

  /** Stored bytes, bytes being committed and live reservations. */
  ghost function Total(s: Account): int {
    s.committed + s.inFlight + LiveBytes(s.keys.reservations, s.keys.now)
  }

  ghost predicate WithinQuota(quota: nat, s: Account) {
    Total(s) <= quota
  }

  /** The counter covers the live reservations after any run. */
  lemma {:induction false} CounterAlwaysCovers(quota: nat, s: Account, steps: seq<Step>)
    requires Covered(s.keys)
    ensures Covered(ApplyAll(quota, s, steps).keys)
  {
    if steps != [] {
      var n := |steps| - 1;
      CounterAlwaysCovers(quota, s, steps[..n]);
      StepKeepsCover(quota, ApplyAll(quota, s, steps[..n]), steps[n]);
    }
  }

  lemma EmptyIsCovered(s: Account)
    requires Empty(s)
    ensures Covered(s.keys) && Total(s) == s.committed
  {
  }

  lemma StepKeepsCover(quota: nat, s: Account, step: Step)
    requires Covered(s.keys)
    ensures Covered(Apply(quota, s, step).keys)
  {
    match step
    case Elapse(seconds) => ElapseKeepsCover(s.keys, seconds);
    case ReserveStep(asset, bytes, seen) => ReserveKeepsCover(s.keys, asset, bytes);
    case ReleaseStep(asset) => ReleaseKeepsCover(s.keys, asset);
    case BeginCommit(asset, size, released) => ReleaseKeepsCover(s.keys, asset);
    case FinishCommit(bytes) =>
    case Delete(bytes) =>
  }

  /** The bytes of all commits that a run begins, and of all deletions it makes. */
  function BytesCommitted(steps: seq<Step>): nat {
    if steps == [] then 0
    else
      var last := steps[|steps| - 1];
      BytesCommitted(steps[..|steps| - 1]) + if last.BeginCommit? then last.size else 0
  }

  function BytesDeleted(steps: seq<Step>): nat {
    if steps == [] then 0
    else
      var last := steps[|steps| - 1];
      BytesDeleted(steps[..|steps| - 1]) + if last.Delete? then last.bytes else 0
  }

  /** Recorded and in flight are what was there and what was committed, less what was deleted at most: nothing else counts. */
  lemma {:induction false} CommittedBytesAddUp(quota: nat, s: Account, steps: seq<Step>)
    ensures var end := ApplyAll(quota, s, steps);
            var all := s.committed + s.inFlight + BytesCommitted(steps);
            && all - BytesDeleted(steps) <= end.committed + end.inFlight <= all
            && (BytesDeleted(steps) == 0 ==> end.committed + end.inFlight == all)
  {
    if steps != [] {
      CommittedBytesAddUp(quota, s, steps[..|steps| - 1]);
    }
  }

  // ---------------------------------------------------------------- when the quota holds

  /**
   * What the quota asks of a step: a granted reservation has room beside everything stored, being
   * committed and reserved but what it replaces, and a commit has room beside everything but the
   * reservation it gives back.
   */
  ghost predicate Fits(quota: nat, s: Account, step: Step) {
    match step
    case ReserveStep(asset, bytes, seen) =>
      IsGranted(quota, s, step) ==> Total(s) - ReservedBytes(s.keys, asset) + bytes <= quota
    case BeginCommit(asset, size, released) =>
      Total(s) - (if released then ReservedBytes(s.keys, asset) else 0) + size <= quota
    case _ => true
  }

  lemma StepStaysWithinIffFits(quota: nat, s: Account, step: Step)
    requires Covered(s.keys) && WithinQuota(quota, s)
    ensures WithinQuota(quota, Apply(quota, s, step)) <==> Fits(quota, s, step)
  {
    match step
    case Elapse(seconds) => LiveBytesFade(s.keys.reservations, s.keys.now, s.keys.now + seconds);
    case ReserveStep(asset, bytes, seen) => ReserveKeepsCover(s.keys, asset, bytes);
    case ReleaseStep(asset) => ReleaseKeepsCover(s.keys, asset);
    case BeginCommit(asset, size, released) => ReleaseKeepsCover(s.keys, asset);
    case FinishCommit(bytes) =>
    case Delete(bytes) =>
  }

  ghost predicate AlwaysWithinQuota(quota: nat, s: Account, steps: seq<Step>) {
    forall i :: 0 <= i <= |steps| ==> WithinQuota(quota, ApplyAll(quota, s, steps[..i]))
  }

  ghost predicate AlwaysFits(quota: nat, s: Account, steps: seq<Step>) {
    forall i :: 0 <= i < |steps| ==> Fits(quota, ApplyAll(quota, s, steps[..i]), steps[i])
  }

  /** A run stays within the quota throughout exactly when it starts there and each of its steps fits. */
  lemma {:induction false} NeverOversoldIffFits(quota: nat, s: Account, steps: seq<Step>)
    requires Covered(s.keys)
    ensures AlwaysWithinQuota(quota, s, steps) <==> WithinQuota(quota, s) && AlwaysFits(quota, s, steps)
  {
    if AlwaysWithinQuota(quota, s, steps) {
      assert steps[..0] == [];
      forall i | 0 <= i < |steps| ensures Fits(quota, ApplyAll(quota, s, steps[..i]), steps[i]) {
        CounterAlwaysCovers(quota, s, steps[..i]);
        Prefix(quota, s, steps, i);
        StepStaysWithinIffFits(quota, ApplyAll(quota, s, steps[..i]), steps[i]);
      }
    }
    if WithinQuota(quota, s) && AlwaysFits(quota, s, steps) {
      forall i | 0 <= i <= |steps| ensures WithinQuota(quota, ApplyAll(quota, s, steps[..i])) {
        FittingPrefixIsWithin(quota, s, steps, i);
      }
    }
  }

  lemma {:induction false} FittingPrefixIsWithin(quota: nat, s: Account, steps: seq<Step>, i: nat)
    requires Covered(s.keys) && WithinQuota(quota, s) && AlwaysFits(quota, s, steps) && i <= |steps|
    ensures WithinQuota(quota, ApplyAll(quota, s, steps[..i]))
  {
    if i > 0 {
      FittingPrefixIsWithin(quota, s, steps, i - 1);
      CounterAlwaysCovers(quota, s, steps[..i - 1]);
      Prefix(quota, s, steps, i - 1);
      StepStaysWithinIffFits(quota, ApplyAll(quota, s, steps[..i - 1]), steps[i - 1]);
    }
  }

  /**
   * What callers would have to keep to: reserve only when all that is stored or being committed is
   * in the usage they read, in what the counter holds beyond the live reservations, or in what is
   * replaced, unless the new reservation is no larger than the one it replaces; and commit a live
   * reservation for no more than it holds.
   */
  ghost predicate Careful(s: Account, step: Step) {
    match step
    case ReserveStep(asset, bytes, seen) =>
      || s.committed + s.inFlight <= seen + Slack(s.keys) + ReservedBytes(s.keys, asset)
      || bytes <= ReservedBytes(s.keys, asset)
    case BeginCommit(asset, size, released) => size <= if released then ReservedBytes(s.keys, asset) else 0
    case _ => true
  }

  /** Where the quota holds so far, the step fits, whatever the quota is. */
  ghost predicate FitsAnyQuota(s: Account, step: Step) {
    forall quota: nat :: WithinQuota(quota, s) ==> Fits(quota, s, step)
  }

  lemma ReservedIsLive(k: Keys, asset: AssetId)
    requires Covered(k)
    ensures 0 <= ReservedBytes(k, asset) <= LiveBytes(k.reservations, k.now) <= PendingBytes(k)
  {
    LiveBytesFade(k.reservations, k.now, k.now);
    if Live(k, asset) {
      AtLeastOne(k.reservations, k.now, asset);
    }
  }

  /** The script's own test, and no test at all for a commit, are enough exactly for careful steps. */
  lemma FitsAnyQuotaIffCareful(s: Account, step: Step)
    requires Covered(s.keys)
    ensures FitsAnyQuota(s, step) <==> Careful(s, step)
  {
    if step.ReserveStep? {
      ReservedIsLive(s.keys, step.asset);
      var quota: nat := Max(Total(s), step.seen + PendingBytes(s.keys) + step.bytes);
      assert WithinQuota(quota, s) && IsGranted(quota, s, step);
      assert Fits(quota, s, step) <==> Careful(s, step);
    } else if step.BeginCommit? {
      ReservedIsLive(s.keys, step.asset);
      assert WithinQuota(Total(s), s);
      assert Fits(Total(s), s, step) <==> Careful(s, step);
    }
  }

  /** With nothing in flight and a usage that is not out of date, every reservation is careful. */
  lemma UpToDateIsCareful(s: Account, step: Step)
    requires Covered(s.keys) && step.ReserveStep? && s.inFlight == 0 && s.committed <= step.seen
    ensures Careful(s, step)
  {
    ReservedIsLive(s.keys, step.asset);
  }

  /** Careful callers never oversell, whatever expires or is deleted in between. */
  lemma {:induction false} NeverOversold(quota: nat, s: Account, steps: seq<Step>)
    requires Empty(s) && s.committed <= quota
    requires forall i :: 0 <= i < |steps| ==> Careful(ApplyAll(quota, s, steps[..i]), steps[i])
    ensures WithinQuota(quota, ApplyAll(quota, s, steps))
  {
    EmptyIsCovered(s);
    if steps != [] {
      var n := |steps| - 1;
      var front := steps[..n];
      forall i | 0 <= i < n ensures Careful(ApplyAll(quota, s, front[..i]), front[i]) {
        assert front[..i] == steps[..i];
      }
      NeverOversold(quota, s, front);
      CounterAlwaysCovers(quota, s, front);
      FitsAnyQuotaIffCareful(ApplyAll(quota, s, front), steps[n]);
      StepStaysWithinIffFits(quota, ApplyAll(quota, s, front), steps[n]);
    }
  }

  // ---------------------------------------------------------------- three ways to sell the quota twice

  /** The quota is stored, and reserved once more. */
  ghost predicate SoldTwice(quota: nat, s: Account) {
    s.committed == quota && LiveBytes(s.keys.reservations, s.keys.now) == quota
  }

  lemma OneReservation(k: Keys, asset: AssetId)
    requires k.reservations.Keys == {asset} && Live(k, asset)
    ensures LiveBytes(k.reservations, k.now) == k.reservations[asset].value
  {
    LiveBytesSplit(k.reservations, k.now, asset);
    assert k.reservations - {asset} == map[];
  }

  /** Fill the quota, start to commit, fill it again before the usage is adjusted, and finish. */
  function OverlappingRun(quota: nat): seq<Step> {
    [ReserveStep("a", quota, 0), BeginCommit("a", quota, true), ReserveStep("b", quota, 0), FinishCommit(quota)]
  }

  lemma CommitWindowOversells(quota: nat, s: Account)
    requires quota > 0 && Empty(s) && s.committed == 0
    ensures SoldTwice(quota, ApplyAll(quota, s, OverlappingRun(quota)))
  {
    var steps := OverlappingRun(quota);
    var s1 := Apply(quota, s, steps[0]);
    var s2 := Apply(quota, s1, steps[1]);
    var s3 := Apply(quota, s2, steps[2]);
    var s4 := Apply(quota, s3, steps[3]);
    assert s1.keys.reservations == map["a" := Timed(quota, s.keys.now + RESERVATION_TTL_SEC)];
    assert s2.keys.reservations == map[] && PendingBytes(s2.keys) == 0;
    assert s4.committed == quota && s4.keys.reservations.Keys == {"b"};
    OneReservation(s4.keys, "b");
    Prefix(quota, s, steps, 0);
    Prefix(quota, s, steps, 1);
    Prefix(quota, s, steps, 2);
    Prefix(quota, s, steps, 3);
    assert steps[..0] == [] && steps[..4] == steps;
  }

  /** Let the reservation expire during the upload, fill the quota again, then commit: nothing overlaps. */
  function ExpiredRun(quota: nat): seq<Step> {
    [ReserveStep("a", quota, 0), Elapse(RESERVATION_TTL_SEC), ReserveStep("b", quota, 0),
     BeginCommit("a", quota, true), FinishCommit(quota)]
  }

  lemma ExpiredCommitOversells(quota: nat, s: Account)
    requires quota > 0 && Empty(s) && s.committed == 0
    ensures SoldTwice(quota, ApplyAll(quota, s, ExpiredRun(quota)))
  {
    var steps := ExpiredRun(quota);
    var s1 := Apply(quota, s, steps[0]);
    var s2 := Apply(quota, s1, steps[1]);
    var s3 := Apply(quota, s2, steps[2]);
    var s4 := Apply(quota, s3, steps[3]);
    var s5 := Apply(quota, s4, steps[4]);
    assert s1.keys.reservations == map["a" := Timed(quota, s.keys.now + RESERVATION_TTL_SEC)];
    assert PendingBytes(s2.keys) == 0 && ReservedBytes(s3.keys, "a") == 0;
    assert s5.committed == quota && s5.keys == s3.keys;
    LiveBytesSplit(s5.keys.reservations, s5.keys.now, "a");
    OneReservation(s5.keys.(reservations := s5.keys.reservations - {"a"}), "b");
    Prefix(quota, s, steps, 0);
    Prefix(quota, s, steps, 1);
    Prefix(quota, s, steps, 2);
    Prefix(quota, s, steps, 3);
    Prefix(quota, s, steps, 4);
    assert steps[..0] == [] && steps[..5] == steps;
  }

  /** Read the usage, let another upload be reserved and committed, and reserve on the old reading. */
  function StaleReadRun(quota: nat): seq<Step> {
    [ReserveStep("a", quota, 0), BeginCommit("a", quota, true), FinishCommit(quota), ReserveStep("b", quota, 0)]
  }

  lemma StaleReadOversells(quota: nat, s: Account)
    requires quota > 0 && Empty(s) && s.committed == 0
    ensures SoldTwice(quota, ApplyAll(quota, s, StaleReadRun(quota)))
  {
    var steps := StaleReadRun(quota);
    var s1 := Apply(quota, s, steps[0]);
    var s2 := Apply(quota, s1, steps[1]);
    var s3 := Apply(quota, s2, steps[2]);
    var s4 := Apply(quota, s3, steps[3]);
    assert s1.keys.reservations == map["a" := Timed(quota, s.keys.now + RESERVATION_TTL_SEC)];
    assert s3.keys.reservations == map[] && PendingBytes(s3.keys) == 0;
    assert s4.committed == quota && s4.keys.reservations.Keys == {"b"};
    OneReservation(s4.keys, "b");
    Prefix(quota, s, steps, 0);
    Prefix(quota, s, steps, 1);
    Prefix(quota, s, steps, 2);
    Prefix(quota, s, steps, 3);
    assert steps[..0] == [] && steps[..4] == steps;
  }
}
