/** The URL resolution service of url_service.go: normalisation, short-code
    generation, write-through shortening, read-through resolution with
    deferred click counting, and the statistics listing. */
module Services {
  import opened Domain
  import opened Base64Url
  import opened Repository
  import opened CachePort

  const HttpScheme: string := "http://"
  const HttpsScheme: string := "https://"

  /** The number of random bytes behind one short code. */
  const EntropyBytes: nat := 6

  /** The length the encoded bytes are cut to. */
  const ShortCodeLength: nat := 8

  /** The fixed LIMIT of the statistics listing. */
  const StatsLimit: nat := 10

  // ---------------------------------------------------------------------
  // Normalisation

  /** strings.HasPrefix with either accepted scheme. */
  predicate HasScheme(u: string) {
    HttpScheme <= u || HttpsScheme <= u
  }

  /** A URL without an http:// or https:// prefix gets https:// in front;
      nothing else is checked. */
  function Normalize(u: string): (r: string)
    ensures HasScheme(r)
    ensures HasScheme(u) ==> r == u
    ensures !HasScheme(u) ==> r == HttpsScheme + u
  {
    if !(HttpScheme <= u) && !(HttpsScheme <= u) then HttpsScheme + u else u
  }

  lemma NormalizeIdempotent(u: string)
    ensures Normalize(Normalize(u)) == Normalize(u)
  {
  }

  /** The added scheme holds no NUL, so the store rejects a normalised URL
      exactly when it rejects the URL as given. */
  lemma NormalizeKeepsNul(u: string)
    ensures Nul in Normalize(u) <==> Nul in u
  {
    if !HasScheme(u) {
      assert Normalize(u) == HttpsScheme + u;
      assert Nul !in HttpsScheme;
    }
  }

  // ---------------------------------------------------------------------
  // Short codes

  /** Six random bytes, base64url-encoded and cut to eight characters. The
      six bytes encode to exactly eight characters without padding, so the
      cut keeps the whole encoding. */
  function GenerateShortCode(entropy: seq<Byte>): (code: string)
    requires |entropy| == EntropyBytes
    ensures |code| == ShortCodeLength
    ensures forall i :: 0 <= i < |code| ==> IsAlphabetChar(code[i]) && code[i] != Pad
    ensures code == Encode(entropy)
  {
    EncodeLength(entropy);
    EncodeUnpadded(entropy);
    Encode(entropy)[..ShortCodeLength]
  }

  /** Different random bytes never give the same short code. */
  lemma ShortCodeInjective(a: seq<Byte>, b: seq<Byte>)
    requires |a| == EntropyBytes && |b| == EntropyBytes
    requires GenerateShortCode(a) == GenerateShortCode(b)
    ensures a == b
  {
    EncodeInjective(a, b);
  }

  /** Every short code fits the VARCHAR(10) column unchanged and holds no
      NUL, so Save never rejects one for its text. */
  lemma ShortCodeFitsColumn(entropy: seq<Byte>)
    requires |entropy| == EntropyBytes
    ensures |GenerateShortCode(entropy)| <= ShortCodeWidth
    ensures ColumnValue(GenerateShortCode(entropy)) == Some(GenerateShortCode(entropy))
    ensures Nul !in GenerateShortCode(entropy)
  {
  }

  // ---------------------------------------------------------------------
  // Cache coherence and click accounting

  /** Every cache entry is the store's long URL for that short code. */
  ghost predicate CacheAgrees(entries: map<string, string>, rows: seq<Url>) {
    forall k :: k in entries ==> LongUrlOf(rows, k) == Some(entries[k])
  }

  /** Rows only ever grow, so an agreeing cache keeps agreeing. */
  lemma AgreementSurvivesGrowth(entries: map<string, string>, before: seq<Url>, after: seq<Url>)
    requires CacheAgrees(entries, before)
    requires Grows(before, after) && UniqueCodes(after)
    ensures CacheAgrees(entries, after)
  {
    forall k | k in entries ensures LongUrlOf(after, k) == Some(entries[k]) {
      GrowsKeepsLongUrl(before, after, k);
    }
  }

  /** Writing the store's own URL for a code keeps the cache agreeing. */
  lemma AgreementAfterSet(entries: map<string, string>, rows: seq<Url>, code: string, u: string)
    requires CacheAgrees(entries, rows) && LongUrlOf(rows, code) == Some(u)
    ensures CacheAgrees(entries[code := u], rows)
  {
  }

  /** How many scheduled increments are for `c`. */
  function Count(s: seq<string>, c: string): nat {
    if s == [] then 0
    else Count(s[..|s| - 1], c) + (if s[|s| - 1] == c then 1 else 0)
  }

  lemma {:induction false} CountRemove(s: seq<string>, i: nat, c: string)
    requires i < |s|
    ensures Count(s[..i] + s[i + 1..], c) + (if s[i] == c then 1 else 0) == Count(s, c)
    decreases |s|
  {
    var init := s[..|s| - 1];
    if i == |s| - 1 {
      assert s[..i] + s[i + 1..] == init;
    } else {
      CountRemove(init, i, c);
      assert init[..i] + init[i + 1..] == (s[..i] + s[i + 1..])[..|s| - 2];
    }
  }

  /** The clicks of `c` once every scheduled increment has run. */
  function Owed(rows: seq<Url>, pending: seq<string>, c: string): int {
    match ClicksOf(rows, c)
    case Some(n) => n + Count(pending, c)
    case None => Count(pending, c)
  }

  /** Every code in `codes` has a row. */
  ghost predicate AllStored(rows: seq<Url>, codes: seq<string>) {
    forall k :: 0 <= k < |codes| ==> Find(rows, codes[k]).Some?
  }

  /** Rows are never removed, so stored codes stay stored; dropping one
      pending code keeps the rest stored. */
  lemma AllStoredSurvives(before: seq<Url>, after: seq<Url>, codes: seq<string>, i: nat)
    requires AllStored(before, codes) && i < |codes|
    requires Grows(before, after) && UniqueCodes(after)
    ensures AllStored(after, codes) && AllStored(after, codes[..i] + codes[i + 1..])
  {
    forall k | 0 <= k < |codes| ensures Find(after, codes[k]).Some? {
      FindUnique(after, codes[k], Find(before, codes[k]).value);
    }
    var rest := codes[..i] + codes[i + 1..];
    forall k | 0 <= k < |rest| ensures Find(after, rest[k]).Some? {
      assert rest[k] == codes[if k < i then k else k + 1];
    }
  }

  /** Running pending increment i moves one click from "pending" to
      "stored": the clicks owed to every code stay the same. */
  lemma OwedKeptByIncrement(rows: seq<Url>, pending: seq<string>, i: nat)
    requires UniqueCodes(rows) && i < |pending| && Find(rows, pending[i]).Some?
    ensures var j := Find(rows, pending[i]).value;
      forall c :: Owed(rows[j := rows[j].(clicks := rows[j].clicks + 1)], pending[..i] + pending[i + 1..], c)
        == Owed(rows, pending, c)
  {
    var j := Find(rows, pending[i]).value;
    forall c ensures Owed(rows[j := rows[j].(clicks := rows[j].clicks + 1)], pending[..i] + pending[i + 1..], c)
        == Owed(rows, pending, c) {
      BumpClicksOf(rows, j, c);
      CountRemove(pending, i, c);
    }
  }

  // ---------------------------------------------------------------------
  // The service

  class UrlService {
    const repo: UrlTable
    const cache: Cache
    /** Short codes whose click-increment goroutine has been spawned and
        has not run yet. */
    var pending: seq<string>

    ghost predicate Valid()
      reads this, repo, cache
    {
      && repo.Valid()
      && CacheAgrees(cache.entries, repo.rows)
      && AllStored(repo.rows, pending)
    }

    constructor (repo: UrlTable, cache: Cache)
      requires repo.Valid() && CacheAgrees(cache.entries, repo.rows)
      ensures Valid() && this.repo == repo && this.cache == cache && pending == []
    {
      this.repo := repo;
      this.cache := cache;
      pending := [];
    }

    /** Normalise, generate a code, save; only after a successful save is
        the cache written, and a failed cache write is ignored. */
    method ShortenURL(longUrl: string, entropy: seq<Byte>, now: Timestamp, dbNow: Timestamp,
                      storeReachable: bool, cacheReachable: bool)
      returns (r: Result<Url>)
      requires Valid() && |entropy| == EntropyBytes
      modifies repo, cache
      ensures Valid() && pending == old(pending)
      ensures Grows(old(repo.rows), repo.rows)
      ensures repo.nextId == if r.Ok? then old(repo.nextId) + 1 else old(repo.nextId)
      ensures var code := GenerateShortCode(entropy);
        && (!storeReachable ==> r == Err(Unavailable))
        && (storeReachable ==>
              (r.Ok? <==> Nul !in longUrl && old(repo.nextId) <= MaxId && Find(old(repo.rows), code).None?))
        && (r.Err? ==>
              r.error == (if !storeReachable then Unavailable
                          else if Nul in longUrl then InvalidText
                          else if old(repo.nextId) > MaxId then IdsExhausted
                          else DuplicateCode))
      ensures r.Err? ==> repo.rows == old(repo.rows) && cache.entries == old(cache.entries)
      ensures r.Ok? ==>
        var code, target := GenerateShortCode(entropy), Normalize(longUrl);
        && r.value == Url(0, code, target, 0, now)
        && repo.rows == old(repo.rows) + [Url(old(repo.nextId), code, target, 0, dbNow)]
        && LongUrlOf(repo.rows, code) == Some(target)
        && cache.entries == if cacheReachable then old(cache.entries)[code := target] else old(cache.entries)
    {
      var target := Normalize(longUrl);
      var url := Url(0, GenerateShortCode(entropy), target, 0, now);
      ShortCodeFitsColumn(entropy);
      NormalizeKeepsNul(longUrl);
      ghost var before := repo.rows;
      var err := repo.Save(url, dbNow, storeReachable);
      if err.Some? {
        return Err(err.value);
      }
      FindUnique(repo.rows, url.shortCode, |repo.rows| - 1);
      AgreementSurvivesGrowth(cache.entries, before, repo.rows);
      AgreementAfterSet(cache.entries, repo.rows, url.shortCode, url.longUrl);
      var _ := cache.Set(url.shortCode, url.longUrl, cacheReachable);
      if pending != [] {
        AllStoredSurvives(before, repo.rows, pending, 0);
      }
      r := Ok(url);
    }

    /** `repo.GetTopURLs(ctx, 10)`; the cache is not involved. */
    method GetStats(storeReachable: bool, corrupt: set<int>) returns (r: Result<seq<Url>>)
      requires Valid()
      ensures !storeReachable ==> r == Err(Unavailable)
      ensures storeReachable ==> r == Ok(Scanned(TopRows(repo.rows, StatsLimit), corrupt))
      ensures r.Ok? ==> |r.value| <= StatsLimit && ByClicksDesc(r.value)
    {
      r := repo.GetTopURLs(StatsLimit, storeReachable, corrupt);
    }

    /** Cache first; on a hit, schedule one increment and return the cached
        URL. On a miss read the store: a code the store rejects (NUL) or
        an absent one is an error; a present one backfills the cache
        (ignoring a failed write), schedules one increment and returns the
        stored URL. */
    method GetOriginalURL(code: string, cacheReachable: bool, storeReachable: bool, backfillReachable: bool)
      returns (r: Result<string>)
      requires Valid()
      modifies this, cache
      ensures Valid()
      ensures repo.rows == old(repo.rows)
      ensures r.Ok? ==> LongUrlOf(repo.rows, code) == Some(r.value)
      ensures r.Ok? ==> pending == old(pending) + [code]
      ensures r.Ok? ==> forall c :: (Owed(repo.rows, pending, c) ==
        Owed(repo.rows, old(pending), c) + (if c == code then 1 else 0))
      ensures r.Err? ==> pending == old(pending) && cache.entries == old(cache.entries)
      ensures cacheReachable && code in old(cache.entries) ==>
        r == Ok(old(cache.entries)[code]) && cache.entries == old(cache.entries)
      ensures !(cacheReachable && code in old(cache.entries)) ==>
        if !storeReachable then r == Err(Unavailable)
        else if Nul in code then r == Err(InvalidText)
        else match LongUrlOf(repo.rows, code)
          case None => r == Err(NotFound)
          case Some(u) => (r == Ok(u) &&
            cache.entries == if backfillReachable then old(cache.entries)[code := u] else old(cache.entries))
    {
      var hit := cache.Get(code, cacheReachable);
      if hit.Ok? {
        SpawnIncrement(code);
        return Ok(hit.value);
      }
      var url := repo.GetByShortCode(code, storeReachable);
      if url.Err? {
        return Err(url.error);
      }
      FindUnique(repo.rows, code, Find(repo.rows, code).value);
      AgreementAfterSet(cache.entries, repo.rows, code, url.value.longUrl);
      var _ := cache.Set(code, url.value.longUrl, backfillReachable);
      SpawnIncrement(code);
      r := Ok(url.value.longUrl);
    }

    /** `go s.repo.IncrementClicks(context.Background(), code)`: the
        increment is recorded as pending, to run later in any order. */
    method SpawnIncrement(code: string)
      requires Valid() && Find(repo.rows, code).Some?
      modifies this
      ensures Valid()
      ensures pending == old(pending) + [code]
      ensures forall c :: (Owed(repo.rows, pending, c) ==
        Owed(repo.rows, old(pending), c) + (if c == code then 1 else 0))
    {
      ghost var before := pending;
      pending := pending + [code];
      forall c ensures Owed(repo.rows, pending, c) == Owed(repo.rows, before, c) + (if c == code then 1 else 0) {
        assert pending[..|pending| - 1] == before;
      }
    }

    /** The spawned goroutine for pending[i] runs: it increments the clicks
        and its error is dropped. When the store is reachable and the count
        is below the column's maximum, the clicks still owed to every code
        are kept; otherwise the click is lost. */
    method RunPending(i: nat, storeReachable: bool)
      requires Valid() && i < |pending|
      modifies this, repo
      ensures Valid()
      ensures pending == old(pending[..i] + pending[i + 1..])
      ensures Grows(old(repo.rows), repo.rows) && |repo.rows| == |old(repo.rows)|
      ensures repo.nextId == old(repo.nextId)
      ensures var j := Find(old(repo.rows), old(pending[i])).value;
        if storeReachable && old(repo.rows[j].clicks) < MaxClicks then
          repo.rows == old(repo.rows[j := repo.rows[j].(clicks := repo.rows[j].clicks + 1)])
        else repo.rows == old(repo.rows)
      ensures storeReachable && old(ClicksOf(repo.rows, pending[i])).value < MaxClicks ==>
        forall c :: Owed(repo.rows, pending, c) == old(Owed(repo.rows, pending, c))
    {
      var code := pending[i];
      ghost var before := repo.rows;
      ghost var wasPending := pending;
      var _ := repo.IncrementClicks(code, storeReachable);
      AgreementSurvivesGrowth(cache.entries, before, repo.rows);
      AllStoredSurvives(before, repo.rows, pending, i);
      pending := pending[..i] + pending[i + 1..];
      if storeReachable && ClicksOf(before, code).value < MaxClicks {
        OwedKeptByIncrement(before, wasPending, i);
      }
    }

    /** The cache entry for `code` expires. */
    method ExpireCached(code: string)
      requires Valid()
      modifies cache
      ensures Valid()
      ensures cache.entries == old(cache.entries) - {code}
    {
      cache.Expire(code);
    }
  }

  /** Shorten a URL, let its cache entry expire or not, then resolve the
      code: the normalised URL comes back whether the cache hits or misses. */
  method ShortenThenResolve(s: UrlService, longUrl: string, entropy: seq<Byte>, now: Timestamp,
                            dbNow: Timestamp, cacheWrite: bool, expire: bool, cacheRead: bool,
                            backfill: bool)
    returns (created: Result<Url>, resolved: Result<string>)
    requires s.Valid() && |entropy| == EntropyBytes
    modifies s, s.repo, s.cache
    ensures s.Valid()
    ensures created.Ok? <==>
      Nul !in longUrl && old(s.repo.nextId) <= MaxId && Find(old(s.repo.rows), GenerateShortCode(entropy)).None?
    ensures created.Ok? ==> resolved == Ok(Normalize(longUrl))
  {
    created := s.ShortenURL(longUrl, entropy, now, dbNow, true, cacheWrite);
    if created.Err? {
      return created, Err(created.error);
    }
    if expire {
      s.ExpireCached(created.value.shortCode);
    }
    resolved := s.GetOriginalURL(created.value.shortCode, cacheRead, true, backfill);
  }
}
