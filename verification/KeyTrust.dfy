/** `expiringKeySet`: how long a fetched signing key stays trusted.

    Calls take the mutex one after another, so a run is the sequence of the clock readings
    they make under it. Verification itself happens later, outside the mutex, with the key
    set the call picked. */
module KeyTrust {
  import opened Options

  const MINUTE := 60_000_000_000
  const DEFAULT_LIFETIME := 15 * MINUTE
  const MAX_DURATION := 0x7fff_ffff_ffff_ffff
  const MIN_DURATION := -0x8000_0000_0000_0000

  predicate IsLifetime(lifetime: int) { 0 < lifetime <= MAX_DURATION }

  /** `time.Time.Sub` on instants in nanoseconds: the difference, saturated to 64 bits. */
  function Sub(a: int, b: int): (d: int)
    ensures MIN_DURATION <= d <= MAX_DURATION
    ensures forall lifetime | IsLifetime(lifetime) :: d >= lifetime <==> a - b >= lifetime
  {
    if a - b > MAX_DURATION then MAX_DURATION else if a - b < MIN_DURATION then MIN_DURATION else a - b
  }

  predicate Expired(created: Option<int>, lifetime: int, now: int) {
    created.None? || Sub(now, created.value) >= lifetime
  }

  /** When the key set that the last of these calls uses was built. */
  function Created(lifetime: int, readings: seq<int>): Option<int> {
    if |readings| == 0 then None else
    var before, now := Created(lifetime, readings[..|readings| - 1]), readings[|readings| - 1];
    if Expired(before, lifetime, now) then Some(now) else before
  }

  /** How many key sets these calls build. */
  function Builds(lifetime: int, readings: seq<int>): nat {
    if |readings| == 0 then 0 else
    var earlier, now := readings[..|readings| - 1], readings[|readings| - 1];
    Builds(lifetime, earlier) + if Expired(Created(lifetime, earlier), lifetime, now) then 1 else 0
  }

  predicate NonDecreasing(readings: seq<int>) {
    forall i, j | 0 <= i < j < |readings| :: readings[i] <= readings[j]
  }

  /** Every call uses a key set younger than the lifetime, built by this call or an earlier one. */
  lemma {:induction false} AgeBelowLifetime(lifetime: int, readings: seq<int>)
    requires IsLifetime(lifetime) && NonDecreasing(readings) && |readings| > 0
    ensures Created(lifetime, readings).Some? && Created(lifetime, readings).value in readings
    ensures 0 <= readings[|readings| - 1] - Created(lifetime, readings).value < lifetime
  {
    var earlier := readings[..|readings| - 1];
    if |earlier| > 0 {
      AgeBelowLifetime(lifetime, earlier);
    }
  }

  /** Key sets are built at least a lifetime apart. */
  lemma {:induction false} BuildsApart(lifetime: int, readings: seq<int>)
    requires IsLifetime(lifetime) && NonDecreasing(readings) && |readings| > 0
    ensures Builds(lifetime, readings) >= 1 && Created(lifetime, readings).Some?
    ensures readings[0] + (Builds(lifetime, readings) - 1) * lifetime <= Created(lifetime, readings).value
  {
    var earlier := readings[..|readings| - 1];
    if |earlier| > 0 {
      BuildsApart(lifetime, earlier);
      var b := Builds(lifetime, earlier);
      assert b * lifetime == (b - 1) * lifetime + lifetime;
    }
  }

  /** At most one key set for the first call and one for every whole lifetime since. */
  lemma BuildsBounded(lifetime: int, readings: seq<int>)
    requires IsLifetime(lifetime) && NonDecreasing(readings) && |readings| > 0
    ensures Builds(lifetime, readings) <= 1 + (readings[|readings| - 1] - readings[0]) / lifetime
  {
    AgeBelowLifetime(lifetime, readings);
    BuildsApart(lifetime, readings);
    QuotientAtLeast(Builds(lifetime, readings) - 1, lifetime, readings[|readings| - 1] - readings[0]);
  }

  lemma QuotientAtLeast(q: int, d: int, n: int)
    requires d > 0 && q * d <= n
    ensures q <= n / d
  {
    var m, r := n / d, n % d;
    assert n == m * d + r && 0 <= r < d;
    assert (m + 1) * d == m * d + d;
    SmallerFactor(q, m + 1, d);
  }

  lemma SmallerFactor(a: int, b: int, d: int)
    requires d > 0 && a * d < b * d
    ensures a < b
  {
    assert a >= b ==> (a - b) * d >= 0;
  }

  /** The bound is reached: calls exactly a lifetime apart build a key set each. */
  lemma {:induction false} BoundReached(lifetime: int, first: int, n: nat)
    requires IsLifetime(lifetime)
    ensures var readings := seq(n, i => first + i * lifetime);
            && Builds(lifetime, readings) == n
            && (n > 0 ==> Created(lifetime, readings) == Some(readings[n - 1]))
  {
    if n > 0 {
      BoundReached(lifetime, first, n - 1);
      var readings := seq(n, i => first + i * lifetime);
      assert readings[..n - 1] == seq(n - 1, i => first + i * lifetime);
      assert n > 1 ==> readings[n - 1] - readings[n - 2] == lifetime by {
        assert (n - 1) * lifetime - (n - 2) * lifetime == lifetime;
      }
    }
  }

  /** What the provider publishes at each instant. */
  type Publication = int -> set<string>

  ghost predicate WithdrawnAt(published: Publication, key: string, at: int) {
    forall t | t >= at :: key !in published(t)
  }

  /** A key set built at an instant trusts only keys it has fetched since. */
  ghost predicate CanTrust(published: Publication, created: int, key: string) {
    exists t :: t >= created && key in published(t)
  }

  /** A key withdrawn at `at` is trusted by no call that reads the clock a lifetime later or
      more (already from the last nanosecond before), however long after its reading the call
      goes on to verify. */
  lemma {:induction false} WithdrawnKeyUntrusted(lifetime: int, readings: seq<int>, published: Publication,
                                                   key: string, at: int)
    requires IsLifetime(lifetime) && NonDecreasing(readings) && |readings| > 0
    requires WithdrawnAt(published, key, at) && readings[|readings| - 1] >= at + lifetime - 1
    ensures Created(lifetime, readings).Some? && !CanTrust(published, Created(lifetime, readings).value, key)
  {
    AgeBelowLifetime(lifetime, readings);
  }

  /** The bound is exact: a nanosecond earlier a call can still trust the key. */
  lemma TrustedUntilThen(lifetime: int, at: int)
    requires IsLifetime(lifetime)
    ensures exists readings: seq<int>, published: Publication, key ::
      && NonDecreasing(readings) && |readings| > 0 && readings[|readings| - 1] == at + lifetime - 2
      && WithdrawnAt(published, key, at)
      && Created(lifetime, readings).Some? && CanTrust(published, Created(lifetime, readings).value, key)
  {
    var readings := [at - 1, at + lifetime - 2];
    var published: Publication := t => if t < at then {"key"} else {};
    assert readings[..1] == [at - 1] && [at - 1][..0] == [];
    assert Created(lifetime, readings[..1]) == Some(at - 1);
    assert Created(lifetime, readings) == Some(at - 1);
    assert "key" in published(at - 1);
    assert WithdrawnAt(published, "key", at);
  }

  class ExpiringKeySet {
    const lifetime: int
    /** The instant the current key set was built; `None` before the first call. */
    var createdAt: Option<int>
    ghost var readings: seq<int>
    ghost var builds: nat

    ghost predicate Valid()
      reads this
    {
      && IsLifetime(lifetime)
      && createdAt == Created(lifetime, readings)
      && builds == Builds(lifetime, readings)
    }

    constructor (lifetime: int)
      requires lifetime <= MAX_DURATION
      ensures Valid() && readings == []
      ensures this.lifetime == if lifetime > 0 then lifetime else 900_000_000_000
    {
      this.lifetime := if lifetime <= 0 then DEFAULT_LIFETIME else lifetime;
      createdAt, readings, builds := None, [], 0;
    }

    /** `verify` is the answer that the key set built at an instant gives for a token. */
    method VerifySignature(now: int, jwt: string, verify: (int, string) -> Option<string>)
      returns (payload: Option<string>)
      requires Valid()
      modifies this
      ensures Valid() && readings == old(readings) + [now]
      ensures createdAt.Some? && payload == verify(createdAt.value, jwt)
      ensures old(createdAt).Some? && now - old(createdAt).value < lifetime ==>
                createdAt == old(createdAt) && builds == old(builds)
      ensures old(createdAt).None? || now - old(createdAt).value >= lifetime ==>
                createdAt == Some(now) && builds == old(builds) + 1
    {
      assert (readings + [now])[..|readings|] == readings;
      readings := readings + [now];
      if createdAt == None || Sub(now, createdAt.value) >= lifetime {
        createdAt := Some(now);
        builds := builds + 1;
      }
      var keySet := createdAt;
      payload := verify(keySet.value, jwt);
    }
  }
}
