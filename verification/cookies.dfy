/** The two entity records of the click tracker: the persisted Cookie
    (src/Entities/Cookie.cs) and the cache wrapper CachedCookie
    (src/Entities/CachedCookie.cs).

    Time is a number of .NET ticks (100 ns) passed in explicitly where the
    source reads DateTime.UtcNow. Click counts are unbounded naturals. */
module Cookies {

  /** A ULID: a 128-bit identifier, opaque to the model. */
  const ULID_BOUND: int := 0x1_0000_0000_0000_0000_0000_0000_0000_0000
  type Ulid = x: int | 0 <= x < ULID_BOUND

  /** A point in time, in ticks of 100 ns. */
  type Instant = int

  /** TimeSpan.FromSeconds(5) in ticks: the quiescence window of a cache entry. */
  const DEBOUNCE_TICKS: int := 5 * 10_000_000

  /** The persisted counter. `id` is the entity key and is init-only: no
      operation of the model builds a Cookie with a different id from an
      existing one. */
  datatype Cookie = Cookie(id: Ulid, clicks: nat)

  /** A cache entry: the cookie, the time it was last touched and whether its
      row already exists in the store (UPDATE rather than INSERT on flush). */
  datatype CachedCookie = CachedCookie(cookie: Cookie, lastModified: Instant, isSaved: bool)

  /** `new Cookie()`: a fresh id drawn by Ulid.NewUlid(), supplied here by the
      caller, and a click count of zero. */
  function NewCookie(freshId: Ulid): (c: Cookie)
    ensures c.id == freshId && c.clicks == 0
  {
    Cookie(freshId, 0)
  }

  /** `new CachedCookie(cookie, saved)` at time `now`. */
  function NewCachedCookie(cookie: Cookie, saved: bool, now: Instant): (e: CachedCookie)
    ensures e.cookie == cookie && e.isSaved == saved && e.lastModified == now
    ensures !Expired(e, now)
  {
    CachedCookie(cookie, now, saved)
  }

  /** `Expired` (the tracker's `CanSave`): strictly more than five seconds have
      passed since the entry was last touched. */
  predicate Expired(e: CachedCookie, now: Instant) {
    now - e.lastModified > DEBOUNCE_TICKS
  }

  /** `Click` (the tracker's `Bake`): add one click and touch the entry.
      Returns the updated entry and the new count. */
  function Click(e: CachedCookie, now: Instant): (r: (CachedCookie, nat))
    ensures r.0.cookie.clicks == e.cookie.clicks + 1 && r.1 == r.0.cookie.clicks
    ensures r.0.lastModified == now
    ensures r.0.isSaved == e.isSaved && r.0.cookie.id == e.cookie.id
    ensures !Expired(r.0, now)
  {
    var cookie := e.cookie.(clicks := e.cookie.clicks + 1);
    (e.(cookie := cookie, lastModified := now), cookie.clicks)
  }

  /** Two successive clicks on one entry return strictly increasing counts,
      whatever the clocks read. */
  lemma ClicksIncrease(e: CachedCookie, t1: Instant, t2: Instant)
    ensures Click(Click(e, t1).0, t2).1 == Click(e, t1).1 + 1
  {
  }
}
