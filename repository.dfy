/** The durable store of postgres_repository.go, as an in-memory `urls`
    table: the SQL statements of Save, GetByShortCode, IncrementClicks and
    GetTopURLs become operations on a sequence of rows kept in insertion
    order, with the schema's constraints checked explicitly. */
module Repository {
  import opened Domain

  /** short_code is VARCHAR(10). */
  const ShortCodeWidth: nat := 10

  /** clicks is a 32-bit INTEGER column. */
  const MaxClicks: int := 0x7fff_ffff

  /** The first and the last value of the SERIAL id column, whose sequence
      is 32-bit. */
  const FirstId: int := 1
  const MaxId: int := 0x7fff_ffff

  /** The character no Postgres text value may hold. */
  const Nul: char := '\0'

  /** What `short_code VARCHAR(10)` stores for a value: the value itself
      when it fits, the value cut to 10 characters when everything past
      the 10th is a space (the SQL rule for an explicit over-long string),
      and nothing otherwise (the insert fails). */
  function ColumnValue(code: string): (r: Option<string>)
    ensures r.Some? <==> (|code| <= ShortCodeWidth || forall k :: ShortCodeWidth <= k < |code| ==> code[k] == ' ')
    ensures r.Some? ==> |r.value| <= ShortCodeWidth && r.value <= code
    ensures r.Some? ==> |r.value| == if |code| < ShortCodeWidth then |code| else ShortCodeWidth
    ensures r.Some? ==> forall k :: |r.value| <= k < |code| ==> code[k] == ' '
  {
    if |code| <= ShortCodeWidth then Some(code)
    else if forall k :: ShortCodeWidth <= k < |code| ==> code[k] == ' ' then Some(code[..ShortCodeWidth])
    else None
  }

  // ---------------------------------------------------------------------
  // The table as a value

  /** The UNIQUE constraint on short_code. */
  ghost predicate UniqueCodes(rows: seq<Url>) {
    forall i, j :: 0 <= i < j < |rows| ==> rows[i].shortCode != rows[j].shortCode
  }

  /** The position of the row whose short code is `code`, as
      `WHERE short_code = $1` selects it. */
  function Find(rows: seq<Url>, code: string): (r: Option<nat>)
    ensures r.Some? ==> r.value < |rows| && rows[r.value].shortCode == code
    ensures r.None? ==> forall i :: 0 <= i < |rows| ==> rows[i].shortCode != code
  {
    if |rows| == 0 then None
    else if rows[|rows| - 1].shortCode == code then Some(|rows| - 1)
    else Find(rows[..|rows| - 1], code)
  }

  /** Under the UNIQUE constraint the matching row is the only one. */
  lemma FindUnique(rows: seq<Url>, code: string, i: nat)
    requires UniqueCodes(rows)
    requires i < |rows| && rows[i].shortCode == code
    ensures Find(rows, code) == Some(i)
  {
  }

  /** The long URL stored for `code`, if any row has it. */
  function LongUrlOf(rows: seq<Url>, code: string): Option<string> {
    match Find(rows, code)
    case Some(i) => Some(rows[i].longUrl)
    case None => None
  }

  /** The click count stored for `code`, if any row has it. */
  function ClicksOf(rows: seq<Url>, code: string): Option<int> {
    match Find(rows, code)
    case Some(i) => Some(rows[i].clicks)
    case None => None
  }

  /** The columns no statement of the repository ever updates. */
  predicate SameRecord(a: Url, b: Url) {
    a.id == b.id && a.shortCode == b.shortCode && a.longUrl == b.longUrl && a.createdAt == b.createdAt
  }

  /** `after` keeps every row of `before` in place, with the same id, short
      code, long URL and creation time and no fewer clicks. */
  ghost predicate Grows(before: seq<Url>, after: seq<Url>) {
    |before| <= |after| &&
    forall i :: 0 <= i < |before| ==>
      SameRecord(before[i], after[i]) && before[i].clicks <= after[i].clicks
  }

  /** Once a short code is stored, its long URL never changes. */
  lemma GrowsKeepsLongUrl(before: seq<Url>, after: seq<Url>, code: string)
    requires Grows(before, after) && UniqueCodes(after)
    requires LongUrlOf(before, code).Some?
    ensures LongUrlOf(after, code) == LongUrlOf(before, code)
  {
    var i := Find(before, code).value;
    FindUnique(after, code, i);
  }

  /** Raising row i's clicks by one changes the click count of its short
      code by exactly one and of no other code. */
  lemma {:induction false} BumpClicksOf(rows: seq<Url>, i: nat, c: string)
    requires UniqueCodes(rows) && i < |rows|
    ensures var after := rows[i := rows[i].(clicks := rows[i].clicks + 1)];
      UniqueCodes(after) &&
      ClicksOf(after, c) ==
        match ClicksOf(rows, c)
        case Some(n) => Some(if c == rows[i].shortCode then n + 1 else n)
        case None => None
  {
    var after := rows[i := rows[i].(clicks := rows[i].clicks + 1)];
    assert UniqueCodes(after) by {
      forall j, k | 0 <= j < k < |after| ensures after[j].shortCode != after[k].shortCode {
        assert after[j].shortCode == rows[j].shortCode && after[k].shortCode == rows[k].shortCode;
      }
    }
    match Find(rows, c)
    case Some(j) =>
      FindUnique(after, c, j);
    case None =>
      assert forall j :: 0 <= j < |after| ==> after[j].shortCode == rows[j].shortCode;
  }

  // ---------------------------------------------------------------------
  // ORDER BY clicks DESC

  ghost predicate ByClicksDesc(s: seq<Url>) {
    forall i, j :: 0 <= i < j < |s| ==> s[i].clicks >= s[j].clicks
  }

  /** Placing the first row of a sorted sequence in front of a sorted
      insertion into the rest keeps the whole sorted. */
  lemma InsertBehind(x: Url, s: seq<Url>, tail: seq<Url>)
    requires |s| > 0 && x.clicks < s[0].clicks
    requires multiset(tail) == multiset(s[1..]) + multiset{x}
    requires ByClicksDesc(s) && ByClicksDesc(tail)
    ensures ByClicksDesc([s[0]] + tail)
  {
    var r := [s[0]] + tail;
    forall i, j | 0 <= i < j < |r| ensures r[i].clicks >= r[j].clicks {
      if i == 0 {
        assert r[j] == tail[j - 1] && tail[j - 1] in multiset(tail);
        assert r[j] == x || r[j] in s[1..];
      } else {
        assert r[i] == tail[i - 1] && r[j] == tail[j - 1];
      }
    }
  }

  /** Places `x` before the first row with no more clicks than it. */
  function InsertByClicks(x: Url, s: seq<Url>): (r: seq<Url>)
    ensures |r| == |s| + 1
    ensures multiset(r) == multiset(s) + multiset{x}
    ensures ByClicksDesc(s) ==> ByClicksDesc(r)
  {
    if s == [] || x.clicks >= s[0].clicks then [x] + s
    else
      var tail := InsertByClicks(x, s[1..]);
      assert s == [s[0]] + s[1..];
      assert ByClicksDesc(s) ==> ByClicksDesc([s[0]] + tail) by {
        if ByClicksDesc(s) {
          InsertBehind(x, s, tail);
        }
      }
      [s[0]] + tail
  }

  /** The rows in non-increasing order of clicks; rows with equal clicks
      keep their insertion order. */
  function SortByClicks(s: seq<Url>): (r: seq<Url>)
    ensures multiset(r) == multiset(s)
    ensures ByClicksDesc(r)
  {
    if s == [] then []
    else
      assert s == [s[0]] + s[1..];
      InsertByClicks(s[0], SortByClicks(s[1..]))
  }

  /** The first n rows of a listing ordered by clicks have at least the
      clicks of every row after them. */
  lemma PrefixHoldsTop(sorted: seq<Url>, n: nat)
    requires ByClicksDesc(sorted) && n <= |sorted|
    ensures multiset(sorted) - multiset(sorted[..n]) == multiset(sorted[n..])
    ensures forall x, i :: x in multiset(sorted) - multiset(sorted[..n]) && 0 <= i < n ==>
      sorted[i].clicks >= x.clicks
  {
    assert sorted == sorted[..n] + sorted[n..];
    forall x, i | x in multiset(sorted) - multiset(sorted[..n]) && 0 <= i < n
      ensures sorted[i].clicks >= x.clicks
    {
      assert x in sorted[n..];
      var k :| 0 <= k < |sorted| - n && sorted[n..][k] == x;
      assert sorted[n + k] == x;
    }
  }

  /** The result set of `ORDER BY clicks DESC LIMIT limit`. */
  function TopRows(rows: seq<Url>, limit: nat): (r: seq<Url>)
    ensures |r| <= limit && ByClicksDesc(r)
    ensures multiset(r) <= multiset(rows)
    ensures |rows| <= limit ==> multiset(r) == multiset(rows)
  {
    var sorted := SortByClicks(rows);
    if limit < |sorted| then
      assert sorted == sorted[..limit] + sorted[limit..];
      sorted[..limit]
    else sorted
  }

  /** The listing holds the `limit` most clicked rows, or all of them when
      there are fewer: exactly min(limit, |rows|) rows, and no row left out
      has more clicks than a row kept. */
  lemma TopRowsAreTop(rows: seq<Url>, limit: nat)
    ensures |TopRows(rows, limit)| == if |rows| < limit then |rows| else limit
    ensures var r := TopRows(rows, limit);
      forall x, i :: x in multiset(rows) - multiset(r) && 0 <= i < |r| ==> r[i].clicks >= x.clicks
  {
    var sorted := SortByClicks(rows);
    assert |sorted| == |multiset(sorted)| == |multiset(rows)| == |rows|;
    if limit < |sorted| {
      PrefixHoldsTop(sorted, limit);
    }
  }

  /** The rows the scan loop keeps: those whose id is not among the rows
      that fail to decode, in query order. */
  function Scanned(s: seq<Url>, corrupt: set<int>): (r: seq<Url>)
    ensures |r| <= |s|
    ensures forall x :: x in r ==> x in s && x.id !in corrupt
  {
    if s == [] then []
    else
      var last := s[|s| - 1];
      Scanned(s[..|s| - 1], corrupt) + (if last.id in corrupt then [] else [last])
  }

  /** The scan loop keeps exactly the rows that decode. */
  lemma {:induction false} ScannedFilters(s: seq<Url>, corrupt: set<int>)
    ensures forall x :: x in Scanned(s, corrupt) <==> x in s && x.id !in corrupt
    decreases |s|
  {
    if s != [] {
      var init := s[..|s| - 1];
      ScannedFilters(init, corrupt);
      assert s == init + [s[|s| - 1]];
    }
  }

  /** The scan loop keeps rows in query order: scanning a query result in
      two parts gives the kept rows of the first part, then those of the
      second. */
  lemma {:induction false} ScannedAppend(a: seq<Url>, b: seq<Url>, corrupt: set<int>)
    ensures Scanned(a + b, corrupt) == Scanned(a, corrupt) + Scanned(b, corrupt)
    decreases |b|
  {
    if b == [] {
      assert a + b == a;
    } else {
      var init, last := b[..|b| - 1], b[|b| - 1];
      assert (a + b)[..|a + b| - 1] == a + init;
      assert (a + b)[|a + b| - 1] == last;
      ScannedAppend(a, init, corrupt);
    }
  }

  /** The scan loop never reorders: a listing in order of clicks stays in
      that order. */
  lemma {:induction false} ScannedKeepsOrder(s: seq<Url>, corrupt: set<int>)
    requires ByClicksDesc(s)
    ensures ByClicksDesc(Scanned(s, corrupt))
    decreases |s|
  {
    if s != [] {
      var init, last := s[..|s| - 1], s[|s| - 1];
      assert s == init + [last];
      assert ByClicksDesc(init);
      ScannedKeepsOrder(init, corrupt);
      if last.id !in corrupt {
        var r, p := Scanned(s, corrupt), Scanned(init, corrupt);
        assert r == p + [last];
        forall i, j | 0 <= i < j < |r| ensures r[i].clicks >= r[j].clicks {
          if j == |r| - 1 {
            assert r[i] in init;
          }
        }
      }
    }
  }

  /** What GetTopURLs(limit) returns, when the query succeeds. */
  lemma TopListingBounded(rows: seq<Url>, limit: nat, corrupt: set<int>)
    ensures var r := Scanned(TopRows(rows, limit), corrupt);
      |r| <= limit && ByClicksDesc(r) &&
      (forall x :: x in r <==> x in TopRows(rows, limit) && x.id !in corrupt) &&
      (forall x :: x in r ==> x in rows)
  {
    ScannedFilters(TopRows(rows, limit), corrupt);
    ScannedKeepsOrder(TopRows(rows, limit), corrupt);
    forall x | x in TopRows(rows, limit) ensures x in rows {
      assert x in multiset(TopRows(rows, limit));
    }
  }

  // ---------------------------------------------------------------------
  // The table's invariant

  /** The schema's constraints on a table whose id sequence is at `nextId`:
      unique codes of at most 10 characters, ids assigned in increasing
      order below `nextId`, and click counts within the INTEGER column. */
  ghost predicate WellFormed(rows: seq<Url>, nextId: int) {
    && UniqueCodes(rows)
    && FirstId <= nextId <= MaxId + 1
    && (forall i :: 0 <= i < |rows| ==>
          FirstId <= rows[i].id < nextId
          && |rows[i].shortCode| <= ShortCodeWidth
          && Nul !in rows[i].shortCode
          && 0 <= rows[i].clicks <= MaxClicks)
    && (forall i, j :: 0 <= i < j < |rows| ==> rows[i].id < rows[j].id)
  }

  /** An insert with a new code that fits the column, the next id and zero
      clicks keeps the constraints and only adds a row. */
  lemma InsertWellFormed(rows: seq<Url>, nextId: int, row: Url)
    requires WellFormed(rows, nextId)
    requires Find(rows, row.shortCode).None? && |row.shortCode| <= ShortCodeWidth && Nul !in row.shortCode
    requires row.id == nextId <= MaxId && row.clicks == 0
    ensures WellFormed(rows + [row], nextId + 1) && Grows(rows, rows + [row])
  {
  }

  /** Raising one count below the maximum keeps the constraints and only
      raises that count. */
  lemma BumpWellFormed(rows: seq<Url>, nextId: int, i: nat)
    requires WellFormed(rows, nextId) && i < |rows| && rows[i].clicks < MaxClicks
    ensures var after := rows[i := rows[i].(clicks := rows[i].clicks + 1)];
      WellFormed(after, nextId) && Grows(rows, after)
  {
    var after := rows[i := rows[i].(clicks := rows[i].clicks + 1)];
    assert forall k :: 0 <= k < |rows| ==>
      SameRecord(rows[k], after[k]) && after[k].clicks == rows[k].clicks + (if k == i then 1 else 0);
    BumpClicksOf(rows, i, rows[i].shortCode);
  }

  // ---------------------------------------------------------------------
  // The store

  class UrlTable {
    /** The rows of `urls`, in insertion order. */
    var rows: seq<Url>
    /** The next value of the SERIAL id sequence. */
    var nextId: int

    ghost predicate Valid()
      reads this
    {
      WellFormed(rows, nextId)
    }

    /** An empty table, as the schema creates it. */
    constructor ()
      ensures Valid() && rows == [] && nextId == FirstId
    {
      rows := [];
      nextId := FirstId;
    }

    /** `INSERT INTO urls (short_code, long_url) VALUES ($1, $2)`: only the
        short code and long URL of `url` are written; id, clicks and
        created_at take their column defaults. The parameters are checked
        first (no NUL), then the id is drawn, then the short code is fitted
        to its column and checked against the UNIQUE constraint. */
    method Save(url: Url, now: Timestamp, reachable: bool) returns (err: Option<Error>)
      requires Valid()
      modifies this
      ensures Valid()
      ensures err ==
        if !reachable then Some(Unavailable)
        else if Nul in url.shortCode || Nul in url.longUrl then Some(InvalidText)
        else if old(nextId) > MaxId then Some(IdsExhausted)
        else if ColumnValue(url.shortCode).None? then Some(ValueTooLong)
        else if Find(old(rows), ColumnValue(url.shortCode).value).Some? then Some(DuplicateCode)
        else None
      ensures err.Some? ==> rows == old(rows) && nextId == old(nextId)
      ensures err.None? ==>
        && rows == old(rows) + [Url(old(nextId), ColumnValue(url.shortCode).value, url.longUrl, 0, now)]
        && nextId == old(nextId) + 1
      ensures Grows(old(rows), rows)
    {
      if !reachable {
        return Some(Unavailable);
      }
      if Nul in url.shortCode || Nul in url.longUrl {
        return Some(InvalidText);
      }
      if nextId > MaxId {
        return Some(IdsExhausted);
      }
      var stored := ColumnValue(url.shortCode);
      if stored.None? {
        return Some(ValueTooLong);
      }
      if Find(rows, stored.value).Some? {
        return Some(DuplicateCode);
      }
      var row := Url(nextId, stored.value, url.longUrl, 0, now);
      InsertWellFormed(rows, nextId, row);
      rows := rows + [row];
      nextId := nextId + 1;
      err := None;
    }

    /** `SELECT ... FROM urls WHERE short_code = $1`; a parameter holding
        NUL is rejected before any row is looked at. */
    method GetByShortCode(code: string, reachable: bool) returns (r: Result<Url>)
      requires Valid()
      ensures !reachable ==> r == Err(Unavailable)
      ensures reachable && Nul in code ==> r == Err(InvalidText)
      ensures reachable && Nul !in code ==> (r.Ok? <==> exists i :: 0 <= i < |rows| && rows[i].shortCode == code)
      ensures reachable && Nul !in code && r.Err? ==> r.error == NotFound
      ensures r.Ok? ==> r.value in rows && r.value.shortCode == code
    {
      if !reachable {
        return Err(Unavailable);
      }
      if Nul in code {
        return Err(InvalidText);
      }
      match Find(rows, code)
      case Some(i) =>
        r := Ok(rows[i]);
      case None =>
        r := Err(NotFound);
    }

    /** `UPDATE urls SET clicks = clicks + 1 WHERE short_code = $1`. A
        parameter holding NUL is rejected; no matching row is not an error;
        a count at the column's maximum makes the statement fail and
        changes nothing. */
    method IncrementClicks(code: string, reachable: bool) returns (err: Option<Error>)
      requires Valid()
      modifies this
      ensures Valid() && nextId == old(nextId)
      ensures !reachable ==> err == Some(Unavailable) && rows == old(rows)
      ensures reachable && Nul in code ==> err == Some(InvalidText) && rows == old(rows)
      ensures reachable && Nul !in code && Find(old(rows), code).None? ==> err == None && rows == old(rows)
      ensures reachable && Find(old(rows), code).Some? ==>
        var i := Find(old(rows), code).value;
        if old(rows)[i].clicks == MaxClicks then
          err == Some(OutOfRange) && rows == old(rows)
        else
          err == None && rows == old(rows)[i := old(rows)[i].(clicks := old(rows)[i].clicks + 1)]
      ensures Grows(old(rows), rows)
    {
      if !reachable {
        return Some(Unavailable);
      }
      if Nul in code {
        return Some(InvalidText);
      }
      match Find(rows, code)
      case None =>
        err := None;
      case Some(i) =>
        if rows[i].clicks == MaxClicks {
          err := Some(OutOfRange);
        } else {
          BumpWellFormed(rows, nextId, i);
          rows := rows[i := rows[i].(clicks := rows[i].clicks + 1)];
          err := None;
        }
    }

    /** `SELECT ... ORDER BY clicks DESC LIMIT $1`, then the scan loop: a
        row that fails to decode is skipped, and the call succeeds once the
        query has. */
    method GetTopURLs(limit: int, reachable: bool, corrupt: set<int>) returns (r: Result<seq<Url>>)
      requires Valid()
      ensures !reachable ==> r == Err(Unavailable)
      ensures reachable && limit < 0 ==> r == Err(InvalidLimit)
      ensures reachable && limit >= 0 ==> r == Ok(Scanned(TopRows(rows, limit), corrupt))
      ensures r.Ok? ==> |r.value| <= limit && ByClicksDesc(r.value)
      ensures r.Ok? ==> forall x :: x in r.value ==> x in rows && x.id !in corrupt
    {
      if !reachable {
        return Err(Unavailable);
      }
      if limit < 0 {
        return Err(InvalidLimit);
      }
      var queried := TopRows(rows, limit);
      var urls: seq<Url> := [];
      var i := 0;
      while i < |queried|
        invariant 0 <= i <= |queried|
        invariant urls == Scanned(queried[..i], corrupt)
      {
        var url := queried[i];
        assert queried[..i + 1] == queried[..i] + [url];
        i := i + 1;
        if url.id in corrupt {
          continue;
        }
        urls := urls + [url];
      }
      assert queried[..i] == queried;
      TopListingBounded(rows, limit, corrupt);
      r := Ok(urls);
    }
  }
}
