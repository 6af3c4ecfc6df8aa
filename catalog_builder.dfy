/**
 * `get_all_n64_games` and the start of `main`: filter the console's game
 * list, fetch details and hashes title by title with a bounded retry on
 * rate limiting, and project the official games to the light catalog.
 */
module CatalogBuilder {
  import opened Common
  import opened Text
  import opened Catalog

  // ---------------------------------------------------------------------
  // Order-preserving filter and map (Python list comprehensions).
  // ---------------------------------------------------------------------

  /** `[x for x in s if p(x)]`. */
  function Filter<T>(p: T -> bool, s: seq<T>): seq<T> {
    if s == [] then []
    else Filter(p, s[..|s| - 1]) + if p(s[|s| - 1]) then [s[|s| - 1]] else []
  }

  /** Filtering a concatenation filters each part, in order. */
  lemma {:induction false} FilterAppend<T>(p: T -> bool, a: seq<T>, b: seq<T>)
    ensures Filter(p, a + b) == Filter(p, a) + Filter(p, b)
    decreases |b|
  {
    if b == [] {
      assert a + b == a;
    } else {
      var init := b[..|b| - 1];
      assert (a + b)[..|a + b| - 1] == a + init;
      assert (a + b)[|a + b| - 1] == b[|b| - 1];
      FilterAppend(p, a, init);
    }
  }

  /** The filter keeps exactly the elements satisfying `p`, and no more of them. */
  lemma {:induction false} FilterMembers<T>(p: T -> bool, s: seq<T>)
    ensures |Filter(p, s)| <= |s|
    ensures forall x :: x in Filter(p, s) <==> x in s && p(x)
  {
    if s != [] {
      var init := s[..|s| - 1];
      FilterMembers(p, init);
      assert s == init + [s[|s| - 1]];
    }
  }

  /** `[f(x) for x in s]`. */
  function Map<T, U>(f: T -> U, s: seq<T>): (r: seq<U>)
    ensures |r| == |s|
    ensures forall i :: 0 <= i < |s| ==> r[i] == f(s[i])
  {
    seq(|s|, i requires 0 <= i < |s| => f(s[i]))
  }

  // ---------------------------------------------------------------------
  // The title filter (main.py:29-34).
  // ---------------------------------------------------------------------

  /** An entry of the console's game list. */
  datatype GameSummary = GameSummary(id: int, title: string)

  /** Titles starting with '~' (hacks, homebrew, prototypes) and subsets are skipped. */
  predicate Eligible(g: GameSummary) {
    !StartsWith(g.title, "~") && !Contains(g.title, "[Subset")
  }

  /** `filtered_games`. */
  function FilterTitles(games: seq<GameSummary>): seq<GameSummary> {
    Filter(Eligible, games)
  }

  /**
   * `filtered_games` holds exactly the eligible games, in list order, and
   * `ignored_count` is the number of the others.
   */
  lemma FilterTitlesSpec(games: seq<GameSummary>)
    ensures forall g :: g in FilterTitles(games) <==> g in games && Eligible(g)
    ensures 0 <= |games| - |FilterTitles(games)| == |Filter(Ineligible, games)|
  {
    FilterMembers(Eligible, games);
    FilterSplit(Eligible, Ineligible, games);
  }

  predicate Ineligible(g: GameSummary) {
    !Eligible(g)
  }

  /** Every element goes to exactly one side of a filter. */
  lemma {:induction false} FilterSplit<T>(p: T -> bool, q: T -> bool, s: seq<T>)
    requires forall x :: q(x) == !p(x)
    ensures |Filter(p, s)| + |Filter(q, s)| == |s|
  {
    if s != [] {
      FilterSplit(p, q, s[..|s| - 1]);
    }
  }

  // ---------------------------------------------------------------------
  // The per-title retry loop (main.py:47-76).
  // ---------------------------------------------------------------------

  /** The `game_info` fields the script reads. */
  datatype GameInfo = GameInfo(id: int, title: string, parentGameId: Option<int>)

  /** One element of `all_games_data`. */
  datatype GameData = GameData(info: GameInfo, hashes: seq<HashInfo>)

  /** Why a request failed: an HTTPError whose text contains '429', another HTTPError, any other exception. */
  datatype Failure = RateLimited | HttpError | OtherError

  /** What one pass through the `try` block meets. */
  datatype Attempt =
    | Fetched(info: GameInfo, hashes: seq<HashInfo>)  // both requests answered
    | InfoFailed(failure: Failure)                      // get_game_info raised
    | HashesFailed(failure: Failure)                    // get_game_info answered, get_game_hashes raised

  /**
   * The server's behaviour: `env(i, k)` is what attempt `k` for the `i`-th
   * title of `filtered_games` meets.
   */
  type Env = (nat, nat) -> Attempt

  const MaxRetries: nat := 3
  /** `time.sleep(0.5)` between the two requests, in milliseconds. */
  const PauseMs: nat := 500

  /** `30 * retry_count` seconds after the `retry_count`-th rate limit, in milliseconds. */
  function BackoffMs(retryCount: nat): nat {
    30000 * retryCount
  }

  /** The result of processing one title: the record appended, if any, and every sleep, in milliseconds. */
  datatype TitleOutcome = TitleOutcome(data: Option<GameData>, waits: seq<nat>)

  /** The sleeps an attempt takes before it succeeds or raises (the pause once get_game_info answered). */
  function PauseOf(a: Attempt): seq<nat> {
    if a.InfoFailed? then [] else [PauseMs]
  }

  /** The retry loop from `retry_count == retry` on. */
  function TitleSpec(env: Env, i: nat, retry: nat): (r: TitleOutcome)
    requires retry <= MaxRetries
    decreases MaxRetries - retry
    // a title that yields a record ends with the 0.5 s pause of the attempt that fetched it, not with a backoff
    ensures r.data.Some? ==> |r.waits| > 0 && r.waits[|r.waits| - 1] == PauseMs
  {
    if retry == MaxRetries then TitleOutcome(None, [])
    else
      var a := env(i, retry);
      if a.Fetched? then TitleOutcome(Some(GameData(a.info, a.hashes)), [PauseMs])
      else if a.failure == RateLimited then
        var rest := TitleSpec(env, i, retry + 1);
        TitleOutcome(rest.data, PauseOf(a) + [BackoffMs(retry + 1)] + rest.waits)
      else TitleOutcome(None, PauseOf(a))
  }

  /** Attempts `retry` up to `k` (excluded) all hit the rate limit. */
  predicate RateLimitedUpTo(env: Env, i: nat, retry: nat, k: nat) {
    forall j :: retry <= j < k ==> !env(i, j).Fetched? && env(i, j).failure == RateLimited
  }

  /**
   * A title yields a record exactly when some attempt k < 3 succeeds after
   * k rate limits, and the record is what that attempt fetched.
   */
  lemma {:induction false} TitleSucceeds(env: Env, i: nat, retry: nat)
    requires retry <= MaxRetries
    decreases MaxRetries - retry
    ensures TitleSpec(env, i, retry).data.Some? <==>
      exists k :: retry <= k < MaxRetries && env(i, k).Fetched? && RateLimitedUpTo(env, i, retry, k)
    ensures forall k :: retry <= k < MaxRetries && env(i, k).Fetched? && RateLimitedUpTo(env, i, retry, k) ==>
      TitleSpec(env, i, retry).data == Some(GameData(env(i, k).info, env(i, k).hashes))
  {
    if retry < MaxRetries {
      var a := env(i, retry);
      if !a.Fetched? && a.failure == RateLimited {
        TitleSucceeds(env, i, retry + 1);
        forall k | retry + 1 <= k < MaxRetries && RateLimitedUpTo(env, i, retry + 1, k)
          ensures RateLimitedUpTo(env, i, retry, k)
        {
        }
      }
      forall k | retry < k < MaxRetries && RateLimitedUpTo(env, i, retry, k)
        ensures !a.Fetched? && a.failure == RateLimited
      {
        assert retry <= retry < k;
      }
    }
  }

  /**
   * Three rate limits in a row, from either request: nothing is appended
   * and the title waited 30 s, 60 s and 90 s (the last wait still happens),
   * plus the 0.5 s pause of each attempt whose first request answered.
   */
  lemma ThreeRateLimits(env: Env, i: nat)
    requires RateLimitedUpTo(env, i, 0, MaxRetries)
    ensures TitleSpec(env, i, 0) ==
      TitleOutcome(None, PauseOf(env(i, 0)) + [30000] + PauseOf(env(i, 1)) + [60000] + PauseOf(env(i, 2)) + [90000])
  {
    assert !env(i, 2).Fetched? && env(i, 2).failure == RateLimited;
    assert TitleSpec(env, i, 2) == TitleOutcome(None, PauseOf(env(i, 2)) + [90000]);
    assert !env(i, 1).Fetched? && env(i, 1).failure == RateLimited;
    assert TitleSpec(env, i, 1) == TitleOutcome(None, PauseOf(env(i, 1)) + [60000] + PauseOf(env(i, 2)) + [90000]);
    assert !env(i, 0).Fetched? && env(i, 0).failure == RateLimited;
  }

  /** A failure other than a rate limit ends the title at once, with nothing appended and no backoff. */
  lemma OtherFailureStops(env: Env, i: nat, retry: nat)
    requires retry < MaxRetries && !env(i, retry).Fetched? && env(i, retry).failure != RateLimited
    ensures TitleSpec(env, i, retry).data.None?
    ensures forall w :: w in TitleSpec(env, i, retry).waits ==> w == PauseMs
  {
  }

  /**
   * Every sleep of a title is the 0.5 s pause or one of the backoffs 30 s,
   * 60 s, 90 s; the backoffs come in strictly increasing order, so each
   * happens at most once, in that order.
   */
  lemma {:induction false} TitleWaits(env: Env, i: nat, retry: nat)
    requires retry <= MaxRetries
    decreases MaxRetries - retry
    ensures forall w :: w in TitleSpec(env, i, retry).waits ==>
      w == PauseMs || exists r :: retry < r <= MaxRetries && w == BackoffMs(r)
    ensures |TitleSpec(env, i, retry).waits| <= 2 * (MaxRetries - retry) + 1
    ensures var w := TitleSpec(env, i, retry).waits;
      forall x, y :: 0 <= x < y < |w| && w[x] != PauseMs && w[y] != PauseMs ==> w[x] < w[y]
  {
    if retry < MaxRetries {
      var a := env(i, retry);
      if !a.Fetched? && a.failure == RateLimited {
        TitleWaits(env, i, retry + 1);
        var o := TitleSpec(env, i, retry);
        var rest := TitleSpec(env, i, retry + 1).waits;
        var head := PauseOf(a) + [BackoffMs(retry + 1)];
        assert o.waits == head + rest;
        forall x, y | 0 <= x < y < |o.waits| && o.waits[x] != PauseMs && o.waits[y] != PauseMs
          ensures o.waits[x] < o.waits[y]
        {
          if x < |head| {
            assert x == |head| - 1 && o.waits[x] == BackoffMs(retry + 1);
            assert y >= |head| && o.waits[y] == rest[y - |head|] && rest[y - |head|] in rest;
            var r :| retry + 1 < r <= MaxRetries && rest[y - |head|] == BackoffMs(r);
          } else {
            assert o.waits[x] == rest[x - |head|] && o.waits[y] == rest[y - |head|];
          }
        }
        forall w | w in o.waits
          ensures w == PauseMs || exists r :: retry < r <= MaxRetries && w == BackoffMs(r)
        {
          if w == BackoffMs(retry + 1) {
            assert retry < retry + 1 <= MaxRetries;
          } else if w in TitleSpec(env, i, retry + 1).waits && w != PauseMs {
            var r :| retry + 1 < r <= MaxRetries && w == BackoffMs(r);
          }
        }
      }
    }
  }

  /** The retry loop of one title. */
  method FetchTitle(env: Env, i: nat) returns (data: Option<GameData>, waits: seq<nat>)
    ensures TitleOutcome(data, waits) == TitleSpec(env, i, 0)
  {
    data, waits := None, [];
    var retryCount := 0;
    while retryCount < MaxRetries
      invariant 0 <= retryCount <= MaxRetries
      invariant TitleSpec(env, i, 0) == Then(waits, TitleSpec(env, i, retryCount))
      decreases MaxRetries - retryCount
    {
      var attempt := env(i, retryCount);
      if attempt.Fetched? {
        // get_game_info, the 0.5 s pause, get_game_hashes, append
        data, waits := Some(GameData(attempt.info, attempt.hashes)), waits + [PauseMs];
        return;
      }
      waits := waits + PauseOf(attempt);
      if attempt.failure != RateLimited {
        return;
      }
      retryCount := retryCount + 1;
      waits := waits + [BackoffMs(retryCount)];
    }
  }

  /** `o` preceded by the sleeps `waits`. */
  function Then(waits: seq<nat>, o: TitleOutcome): TitleOutcome {
    TitleOutcome(o.data, waits + o.waits)
  }

  // ---------------------------------------------------------------------
  // The whole fetch (main.py:23-117) and the light projection (89-103).
  // ---------------------------------------------------------------------

  /** Records ParentGameID None and a title not starting with '~' are official. */
  predicate Official(d: GameData) {
    d.info.parentGameId.None? && !StartsWith(d.info.title, "~")
  }

  /** The light record of a game: id, title and hashes passed through. */
  function ToLight(d: GameData): LightGame {
    LightGame(d.info.id, d.info.title, d.hashes)
  }

  /** `all_games_data_light`. */
  function LightOf(all: seq<GameData>): seq<LightGame> {
    Map(ToLight, Filter(Official, all))
  }

  /**
   * The light list is, in order, the official records projected: a light
   * entry exists exactly for each official record, and concatenation is
   * preserved.
   */
  lemma LightOfSpec(all: seq<GameData>, more: seq<GameData>)
    ensures |LightOf(all)| <= |all|
    ensures forall l :: l in LightOf(all) <==> exists d :: d in all && Official(d) && l == ToLight(d)
    ensures LightOf(all + more) == LightOf(all) + LightOf(more)
  {
    FilterMembers(Official, all);
    FilterAppend(Official, all, more);
    var off := Filter(Official, all);
    forall l | l in LightOf(all) ensures exists d :: d in all && Official(d) && l == ToLight(d) {
      var i :| 0 <= i < |off| && LightOf(all)[i] == l;
      assert off[i] in off;
    }
    forall l | exists d :: d in all && Official(d) && l == ToLight(d) ensures l in LightOf(all) {
      var d :| d in all && Official(d) && l == ToLight(d);
      var i :| 0 <= i < |off| && off[i] == d;
      assert LightOf(all)[i] == l;
    }
    assert Map(ToLight, Filter(Official, all + more)) == Map(ToLight, off) + Map(ToLight, Filter(Official, more));
  }

  /** What one title appends to `all_games_data`. */
  function Appended(data: Option<GameData>): (r: seq<GameData>)
    ensures |r| <= 1
    ensures forall d :: d in r <==> data == Some(d)
  {
    if data.Some? then [data.value] else []
  }

  /** The record title `i` yields, if any. */
  function TitleData(env: Env, i: nat): Option<GameData> {
    TitleSpec(env, i, 0).data
  }

  /** The records `all_games_data` holds after the first `n` titles. */
  function Collected(env: Env, n: nat): seq<GameData> {
    if n == 0 then []
    else Collected(env, n - 1) + Appended(TitleData(env, n - 1))
  }

  /** Every sleep taken for the first `n` titles, in order. */
  function Slept(env: Env, n: nat): seq<nat> {
    if n == 0 then [] else Slept(env, n - 1) + TitleSpec(env, n - 1, 0).waits
  }

  /**
   * `all_games_data` holds one record per title whose fetch succeeded, in
   * title order, and nothing else.
   */
  lemma {:induction false} CollectedSpec(env: Env, n: nat)
    ensures |Collected(env, n)| <= n
    ensures forall d :: d in Collected(env, n) <==> exists i :: 0 <= i < n && TitleData(env, i) == Some(d)
  {
    if n > 0 {
      CollectedSpec(env, n - 1);
      var prev, last := Collected(env, n - 1), Appended(TitleData(env, n - 1));
      assert Collected(env, n) == prev + last;
      forall d | d in Collected(env, n) ensures exists i :: 0 <= i < n && TitleData(env, i) == Some(d) {
        if d !in prev {
          assert d in last;
          assert TitleData(env, n - 1) == Some(d);
        }
      }
      forall d | exists i :: 0 <= i < n && TitleData(env, i) == Some(d) ensures d in Collected(env, n) {
        var i :| 0 <= i < n && TitleData(env, i) == Some(d);
        if i < n - 1 {
          assert d in prev;
        } else {
          assert d in last;
        }
      }
    }
  }

  /** The figures and lists of a successful run. */
  datatype Fetch = Fetch(
    filtered: seq<GameSummary>,  // filtered_games
    ignored: int,                // ignored_count
    all: seq<GameData>,          // all_games_data
    light: seq<LightGame>,       // all_games_data_light
    waits: seq<nat>)             // every time.sleep, in milliseconds

  /**
   * `get_all_n64_games` once the game list request has answered `listing`:
   * a failed list request makes it return False (modelled as `Err`).
   */
  method GetAllGames(listing: Result<seq<GameSummary>, Failure>, env: Env) returns (r: Result<Fetch, Failure>)
    ensures listing.Err? ==> r == Err(listing.error)
    ensures listing.Ok? ==> r.Ok?
    ensures listing.Ok? ==>
      var filtered := FilterTitles(listing.value);
      && r.value.filtered == filtered
      && r.value.ignored == |listing.value| - |filtered|
      && r.value.all == Collected(env, |filtered|)
      && r.value.light == LightOf(Collected(env, |filtered|))
      && r.value.waits == Slept(env, |filtered|)
  {
    if listing.Err? {
      return Err(listing.error);
    }
    var games := listing.value;
    var filtered := FilterTitles(games);
    var ignored := |games| - |filtered|;
    var all: seq<GameData> := [];
    var waits: seq<nat> := [];
    for i := 0 to |filtered|
      invariant all == Collected(env, i)
      invariant waits == Slept(env, i)
    {
      var data, slept := FetchTitle(env, i);
      if data.Some? {
        all := all + [data.value];
      }
      waits := waits + slept;
    }
    var light := LightOf(all);
    r := Ok(Fetch(filtered, ignored, all, light, waits));
  }

  /** Sizes only shrink along the pipeline: light <= all <= filtered <= listed. */
  lemma SizesShrink(games: seq<GameSummary>, env: Env)
    ensures var filtered := FilterTitles(games);
      |LightOf(Collected(env, |filtered|))| <= |Collected(env, |filtered|)| <= |filtered| <= |games|
  {
    var filtered := FilterTitles(games);
    FilterMembers(Eligible, games);
    CollectedSpec(env, |filtered|);
    LightOfSpec(Collected(env, |filtered|), []);
  }

  // ---------------------------------------------------------------------
  // The credential guard of `main` (main.py:127-141).
  // ---------------------------------------------------------------------

  /** A credential: the environment variable's value, or the prompt's answer when that is unset or empty. */
  function Resolve(fromEnv: Option<string>, typed: string): (r: string)
    ensures fromEnv.Some? && fromEnv.value != "" ==> r == fromEnv.value
    ensures r == "" <==> (fromEnv.None? || fromEnv.value == "") && typed == ""
    ensures fromEnv.None? || fromEnv.value == "" ==> r == typed
  {
    if fromEnv.Some? && fromEnv.value != "" then fromEnv.value else typed
  }

  /** How `main` starts: it stops before any request, or goes on with both credentials. */
  datatype Start = MissingCredentials | Proceed(username: string, apiKey: string)

  function StartMain(userEnv: Option<string>, keyEnv: Option<string>, typedUser: string, typedKey: string): (r: Start)
    ensures r.Proceed? <==> Resolve(userEnv, typedUser) != "" && Resolve(keyEnv, typedKey) != ""
    ensures r.Proceed? ==> r.username == Resolve(userEnv, typedUser) && r.apiKey == Resolve(keyEnv, typedKey)
  {
    var username := Resolve(userEnv, typedUser);
    var apiKey := Resolve(keyEnv, typedKey);
    if username == "" || apiKey == "" then MissingCredentials else Proceed(username, apiKey)
  }

  /**
   * `main` fetches nothing unless it ends up with a non-empty username and
   * a non-empty key, and a non-empty environment value is always used as is.
   */
  lemma CredentialGuard(userEnv: Option<string>, keyEnv: Option<string>, typedUser: string, typedKey: string)
    ensures StartMain(userEnv, keyEnv, typedUser, typedKey).MissingCredentials? <==>
      ((userEnv.None? || userEnv.value == "") && typedUser == "") || ((keyEnv.None? || keyEnv.value == "") && typedKey == "")
    ensures StartMain(userEnv, keyEnv, typedUser, typedKey).Proceed? ==>
      var s := StartMain(userEnv, keyEnv, typedUser, typedKey);
      && s.username != "" && s.apiKey != ""
      && (userEnv.Some? && userEnv.value != "" ==> s.username == userEnv.value)
      && (keyEnv.Some? && keyEnv.value != "" ==> s.apiKey == keyEnv.value)
  {
  }
}
