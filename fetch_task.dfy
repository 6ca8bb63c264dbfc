/**
 * The ingestion task `fetch_recipes` (recipes/tasks.py): the daily quota gate
 * over a key-to-integer cache, the classification of the HTTP result into
 * the task's outcomes, the loop that saves one page of results, and the rule
 * that schedules the next page.
 *
 * The cache key (built from today's date), the HTTP response and the HTML
 * cleaner are parameters.  Retrying and scheduling are outcomes, not actions.
 */
module FetchTask {
  import opened Wrappers
  import opened PyText
  import opened RecipeModels
  import opened ItemNormaliser

  const DailyLimit: int := 50
  const DefaultBatchSize: int := 10
  /** The `countdown` of a retry after an HTTP error status. */
  const HttpErrorCountdown: int := 30
  /** The `countdown` of a retry after any other request failure. */
  const RequestErrorCountdown: int := 20
  /** The status with which the service reports an exhausted plan. */
  const PaymentRequired: int := 402
  /** The value that the missing-key branch stores, as written. */
  const StoredOnFirstCallAsWritten: int := 86400

  // ---------------------------------------------------------------------------
  // The quota gate
  // ---------------------------------------------------------------------------

  /** The cache after the gate, and `calls_used`. */
  datatype Claim = Claim(cache: map<string, int>, callsUsed: int)

  /** `cache.get(key, default)`. */
  function CacheGet(cache: map<string, int>, key: string, default: int): int {
    if key in cache then cache[key] else default
  }

  /** The gate as written: `cache.incr(key)`, and when that raises `ValueError` for a
      missing key, `cache.set(key, 86400)` with `calls_used = 1`. */
  function ClaimCallAsWritten(cache: map<string, int>, key: string): (c: Claim)
    ensures c.cache.Keys == cache.Keys + {key}
    ensures forall k :: k in cache && k != key ==> c.cache[k] == cache[k]
    ensures key !in cache ==> c.callsUsed == 1 && c.cache[key] == StoredOnFirstCallAsWritten
    ensures key in cache ==> c.callsUsed == c.cache[key] == cache[key] + 1
  {
    if key in cache then Claim(cache[key := cache[key] + 1], cache[key] + 1)
    else Claim(cache[key := StoredOnFirstCallAsWritten], 1)
  }

  /** The gate as intended: the first call of the day stores 1. */
  function ClaimCall(cache: map<string, int>, key: string): (c: Claim)
    ensures c.cache.Keys == cache.Keys + {key}
    ensures forall k :: k in cache && k != key ==> c.cache[k] == cache[k]
    ensures c.callsUsed == c.cache[key] == CacheGet(cache, key, 0) + 1
  {
    if key in cache then Claim(cache[key := cache[key] + 1], cache[key] + 1)
    else Claim(cache[key := 1], 1)
  }

  /** The gate a run uses: as written, or as intended. */
  function Gate(cache: map<string, int>, key: string, asWritten: bool): Claim {
    if asWritten then ClaimCallAsWritten(cache, key) else ClaimCall(cache, key)
  }

  /** As written, a second run on the same day always finds itself over the limit. */
  lemma SecondCallOverLimitAsWritten(cache: map<string, int>, key: string)
    requires key !in cache
    ensures ClaimCallAsWritten(cache, key).callsUsed <= DailyLimit
    ensures ClaimCallAsWritten(ClaimCallAsWritten(cache, key).cache, key).callsUsed > DailyLimit
  {
  }

  /** Runs claimed in a row on the same day: the `n`-th sees `calls_used == n`. */
  function ClaimTimes(cache: map<string, int>, key: string, n: nat): map<string, int>
    decreases n
  {
    if n == 0 then cache else ClaimCall(ClaimTimes(cache, key, n - 1), key).cache
  }

  lemma {:induction false} ClaimTimesCounts(cache: map<string, int>, key: string, n: nat)
    requires key !in cache && n >= 1
    ensures ClaimTimes(cache, key, n)[key] == n
    ensures ClaimCall(ClaimTimes(cache, key, n - 1), key).callsUsed == n
  {
    if n > 1 {
      ClaimTimesCounts(cache, key, n - 1);
    }
  }

  /** With the intended gate the `n`-th run of a day passes the gate exactly when `n <= 50`. */
  lemma IntendedGateAdmitsFifty(cache: map<string, int>, key: string, n: nat)
    requires key !in cache && n >= 1
    ensures ClaimCall(ClaimTimes(cache, key, n - 1), key).callsUsed <= DailyLimit <==> n <= DailyLimit
  {
    ClaimTimesCounts(cache, key, n);
  }

  /** The requests made by a chain of continuation runs on one day, each of whose
      requests succeeds: a run passes the gate, makes its request, and schedules the
      next run while the count read back is below the limit.  `fuel` bounds the chain. */
  function ChainRequests(cache: map<string, int>, key: string, asWritten: bool, fuel: nat): nat
    decreases fuel
  {
    if fuel == 0 then 0
    else
      var c := Gate(cache, key, asWritten);
      if c.callsUsed > DailyLimit then 0
      else if CacheGet(c.cache, key, 0) < DailyLimit then 1 + ChainRequests(c.cache, key, asWritten, fuel - 1)
      else 1
  }

  lemma {:induction false} IntendedChainFrom(cache: map<string, int>, key: string, v: int, fuel: nat)
    requires 0 <= v < DailyLimit && CacheGet(cache, key, 0) == v && fuel >= DailyLimit - v
    ensures ChainRequests(cache, key, false, fuel) == DailyLimit - v
    decreases fuel
  {
    var c := ClaimCall(cache, key);
    if v + 1 < DailyLimit {
      IntendedChainFrom(c.cache, key, v + 1, fuel - 1);
    }
  }

  /** With the intended gate, a chain started on a fresh day makes exactly 50 requests;
      as written it makes one, because the count read back is 86400. */
  lemma ChainRequestsPerDay(cache: map<string, int>, key: string, fuel: nat)
    requires key !in cache && fuel >= DailyLimit
    ensures ChainRequests(cache, key, false, fuel) == DailyLimit
    ensures ChainRequests(cache, key, true, fuel) == 1
  {
    IntendedChainFrom(cache, key, 0, fuel);
  }

  // ---------------------------------------------------------------------------
  // Outcomes
  // ---------------------------------------------------------------------------

  /** The arguments of one run; a continuation passes only the offset. */
  datatype Call = Call(offset: int, batchSize: int)

  /** What the HTTP request produced: a response with its status and parsed
      `results` (missing means []), or a failure before any response. */
  datatype HttpResult =
    | Response(status: int, results: seq<Item>)
    | RequestFailed

  /** `raise_for_status` raises for 4xx and 5xx statuses. */
  predicate IsHttpError(status: int) {
    400 <= status < 600
  }

  datatype Outcome =
    | LimitReached(message: string)
    | Depleted(message: string)
    | Retry(countdown: int)
    | Fetched(message: string, saved: nat, next: Option<Call>)
    /** An exception escapes the run: as written, the `NameError` of the undefined cleaner. */
    | Raised

  function LimitMessage(callsUsed: int): string {
    "Daily limit reached: " + IntToString(callsUsed) + "/" + IntToString(DailyLimit)
  }

  const DepletedMessage: string := "You have depleted your free API calls. Please upgrade to premium"

  function FetchedMessage(fetched: nat, updatedCalls: int): string {
    "Successfully fetched " + IntToString(fetched) + " recipes. Daily limit reached: "
      + IntToString(updatedCalls) + "/" + IntToString(DailyLimit)
  }

  /** The run that follows a page: offset advanced by this run's batch size, batch size
      back at its default; none once the count read back reaches the limit. */
  function NextCall(call: Call, updatedCalls: int): (next: Option<Call>)
    ensures next.Some? <==> updatedCalls < DailyLimit
    ensures next.Some? ==> next.value.offset == call.offset + call.batchSize && next.value.batchSize == DefaultBatchSize
  {
    if updatedCalls < DailyLimit then Some(Call(call.offset + call.batchSize, DefaultBatchSize)) else None
  }

  // ---------------------------------------------------------------------------
  // Saving a page
  // ---------------------------------------------------------------------------

  /** The recipe row and its nutrition row, stored under the service's recipe id. */
  datatype StoredRecipe = StoredRecipe(recipe: RecipeDefaults, nutrition: Nutrition)

  /** `update_or_create(api_id=...)` for a saved item; a skipped item stores nothing. */
  function Upsert(db: map<int, StoredRecipe>, r: SaveResult): map<int, StoredRecipe> {
    if r.Saved? then db[r.apiId := StoredRecipe(r.recipe, r.nutrition)] else db
  }

  /** The store after applying a sequence of per-item results in order. */
  function Apply(db: map<int, StoredRecipe>, rs: seq<SaveResult>): map<int, StoredRecipe> {
    if rs == [] then db
    else Upsert(Apply(db, rs[..|rs| - 1]), rs[|rs| - 1])
  }

  /** The per-item results of a page. */
  function Results(items: seq<Item>, cleanHtml: string -> string): (rs: seq<SaveResult>)
    ensures |rs| == |items|
  {
    seq(|items|, i requires 0 <= i < |items| => Normalise(items[i], cleanHtml))
  }

  /** The store after saving the items of a page in order. */
  function SavePage(db: map<int, StoredRecipe>, items: seq<Item>, cleanHtml: string -> string): map<int, StoredRecipe> {
    Apply(db, Results(items, cleanHtml))
  }

  /** The number of items of a page that were saved. */
  function SavedCount(items: seq<Item>, cleanHtml: string -> string): nat {
    if items == [] then 0
    else SavedCount(items[..|items| - 1], cleanHtml) + (if Incomplete(items[|items| - 1]) then 0 else 1)
  }

  lemma {:induction false} ApplyUntouched(db: map<int, StoredRecipe>, rs: seq<SaveResult>, id: int)
    requires forall i :: 0 <= i < |rs| ==> rs[i].Skipped? || rs[i].apiId != id
    ensures id in Apply(db, rs) <==> id in db
    ensures id in db ==> Apply(db, rs)[id] == db[id]
  {
    if rs != [] {
      var init := rs[..|rs| - 1];
      assert forall i :: 0 <= i < |init| ==> init[i] == rs[i];
      ApplyUntouched(db, init, id);
    }
  }

  lemma {:induction false} ApplyLatest(db: map<int, StoredRecipe>, rs: seq<SaveResult>, i: nat)
    requires i < |rs| && rs[i].Saved?
    requires forall j :: i < j < |rs| ==> rs[j].Skipped? || rs[j].apiId != rs[i].apiId
    ensures rs[i].apiId in Apply(db, rs)
    ensures Apply(db, rs)[rs[i].apiId] == StoredRecipe(rs[i].recipe, rs[i].nutrition)
  {
    var init := rs[..|rs| - 1];
    if i < |rs| - 1 {
      assert forall j :: i < j < |init| ==> init[j] == rs[j];
      ApplyLatest(db, init, i);
    }
  }

  /** An id that no complete item of the page carries keeps its earlier row, or stays absent. */
  lemma SavePageUntouched(db: map<int, StoredRecipe>, items: seq<Item>, cleanHtml: string -> string, id: int)
    requires forall i :: 0 <= i < |items| ==> items[i].id != id || Incomplete(items[i])
    ensures id in SavePage(db, items, cleanHtml) <==> id in db
    ensures id in db ==> SavePage(db, items, cleanHtml)[id] == db[id]
  {
    var rs := Results(items, cleanHtml);
    forall i | 0 <= i < |rs| ensures rs[i].Skipped? || rs[i].apiId != id {
      NormaliseKey(items[i], cleanHtml);
    }
    ApplyUntouched(db, rs, id);
  }

  /** After a page, the row of an id holds the record of the last complete item with that id. */
  lemma SavePageLatest(db: map<int, StoredRecipe>, items: seq<Item>, cleanHtml: string -> string, i: nat)
    requires i < |items| && !Incomplete(items[i])
    requires forall j :: i < j < |items| ==> items[j].id != items[i].id || Incomplete(items[j])
    ensures items[i].id in SavePage(db, items, cleanHtml)
    ensures SavePage(db, items, cleanHtml)[items[i].id] ==
      StoredRecipe(Normalise(items[i], cleanHtml).recipe, Normalise(items[i], cleanHtml).nutrition)
  {
    var rs := Results(items, cleanHtml);
    NormaliseKey(items[i], cleanHtml);
    forall j | i < j < |rs| ensures rs[j].Skipped? || rs[j].apiId != rs[i].apiId {
      NormaliseKey(items[j], cleanHtml);
    }
    ApplyLatest(db, rs, i);
  }

  /** A page saves at most as many recipes as it holds. */
  lemma {:induction false} SavedCountBound(items: seq<Item>, cleanHtml: string -> string)
    ensures SavedCount(items, cleanHtml) <= |items|
    ensures (forall i :: 0 <= i < |items| ==> Incomplete(items[i])) ==> SavedCount(items, cleanHtml) == 0
  {
    if items != [] {
      var init := items[..|items| - 1];
      assert forall i :: 0 <= i < |init| ==> init[i] == items[i];
      SavedCountBound(init, cleanHtml);
    }
  }

  /** Every item of the page fails the completeness check. */
  predicate AllIncomplete(items: seq<Item>) {
    forall i :: 0 <= i < |items| ==> Incomplete(items[i])
  }

  /** The page loop as written: skipped items are not counted, and the first complete
      item raises `NameError` (`None`), before anything is stored. */
  method SaveItemsAsWritten(items: seq<Item>) returns (saved: Option<nat>)
    ensures saved.Some? <==> AllIncomplete(items)
    ensures saved.Some? ==> saved.value == 0
  {
    var count := 0;
    var i := 0;
    while i < |items|
      invariant 0 <= i <= |items|
      invariant AllIncomplete(items[..i])
      invariant count == 0
    {
      var r := SaveOrUpdateAsWritten(items[i]);
      if r.None? {
        assert !AllIncomplete(items) by {
          assert !Incomplete(items[i]);
        }
        return None;
      }
      if r.value.Saved? {
        count := count + 1;
      }
      assert items[..i + 1] == items[..i] + [items[i]];
      i := i + 1;
    }
    assert items[..i] == items;
    return Some(count);
  }

  // ---------------------------------------------------------------------------
  // The task
  // ---------------------------------------------------------------------------

  class FetchWorker {
    /** The shared cache; only the quota counters are modelled. */
    var cache: map<string, int>
    /** The recipe rows by `api_id`, each with its nutrition row. */
    var db: map<int, StoredRecipe>

    constructor()
      ensures cache == map[] && db == map[]
    {
      cache := map[];
      db := map[];
    }

    /** The items of one page are normalised and stored one after the other; returns
        how many were saved. */
    method SaveItems(items: seq<Item>, cleanHtml: string -> string) returns (saved: nat)
      modifies this
      ensures cache == old(cache)
      ensures db == SavePage(old(db), items, cleanHtml)
      ensures saved == SavedCount(items, cleanHtml)
    {
      saved := 0;
      var i := 0;
      while i < |items|
        invariant 0 <= i <= |items|
        invariant cache == old(cache)
        invariant db == SavePage(old(db), items[..i], cleanHtml)
        invariant saved == SavedCount(items[..i], cleanHtml)
      {
        var r := NormaliseItem(items[i], cleanHtml);
        NormaliseSpec(items[i], cleanHtml);
        if r.Saved? {
          db := db[r.apiId := StoredRecipe(r.recipe, r.nutrition)];
          saved := saved + 1;
        }
        assert items[..i + 1][..i] == items[..i];
        var rs := Results(items[..i + 1], cleanHtml);
        assert rs[..i] == Results(items[..i], cleanHtml);
        assert rs[i] == r;
        i := i + 1;
      }
      assert items[..i] == items;
    }

    /** One run of `fetch_recipes`, as written (`asWritten`: the gate of tasks.py:23-27
        and the undefined cleaner) or as intended (the corrected gate and the cleaner
        `cleanHtml`).  `response` is what the request returns; it is ignored when the
        gate stops the run first. */
    method FetchRecipes(key: string, call: Call, response: HttpResult, cleanHtml: string -> string, asWritten: bool)
      returns (outcome: Outcome)
      modifies this
      ensures cache == Gate(old(cache), key, asWritten).cache
      ensures var used := Gate(old(cache), key, asWritten).callsUsed;
        if used > DailyLimit then
          outcome == LimitReached(LimitMessage(used)) && db == old(db)
        else if response.RequestFailed? then
          outcome == Retry(RequestErrorCountdown) && db == old(db)
        else if IsHttpError(response.status) then
          db == old(db)
          && outcome == (if response.status == PaymentRequired then Depleted(DepletedMessage) else Retry(HttpErrorCountdown))
        else if asWritten then
          db == old(db)
          && outcome == (if AllIncomplete(response.results)
                         then Fetched(FetchedMessage(|response.results|, CacheGet(cache, key, 0)), 0,
                                      NextCall(call, CacheGet(cache, key, 0)))
                         else Raised)
        else
          db == SavePage(old(db), response.results, cleanHtml)
          && outcome == Fetched(
               FetchedMessage(|response.results|, CacheGet(cache, key, 0)),
               SavedCount(response.results, cleanHtml),
               NextCall(call, CacheGet(cache, key, 0)))
    {
      var claim := Gate(cache, key, asWritten);
      cache := claim.cache;
      var callsUsed := claim.callsUsed;
      if callsUsed > DailyLimit {
        return LimitReached(LimitMessage(callsUsed));
      }
      match response
      case RequestFailed =>
        return Retry(RequestErrorCountdown);
      case Response(status, results) =>
        if IsHttpError(status) {
          if status == PaymentRequired {
            return Depleted(DepletedMessage);
          }
          return Retry(HttpErrorCountdown);
        }
        var saved: nat;
        if asWritten {
          var s := SaveItemsAsWritten(results);
          if s.None? {
            return Raised;
          }
          saved := s.value;
        } else {
          saved := SaveItems(results, cleanHtml);
        }
        var updatedCalls := CacheGet(cache, key, 0);
        outcome := Fetched(FetchedMessage(|results|, updatedCalls), saved, NextCall(call, updatedCalls));
    }
  }

  /** A run that passes the gate with a successful response schedules the next page
      exactly when its own count is below the limit; its `calls_used` is that count. */
  lemma ContinuationRule(cache: map<string, int>, key: string, call: Call)
    ensures var c := ClaimCall(cache, key);
      NextCall(call, CacheGet(c.cache, key, 0)).Some? <==> c.callsUsed < DailyLimit
  {
  }

  /** As written, the first run of a day passes the gate and never schedules a
      successor: the count it reads back is 86400. */
  lemma FirstRunEndsChainAsWritten(cache: map<string, int>, key: string, call: Call)
    requires key !in cache
    ensures var c := Gate(cache, key, true);
      c.callsUsed <= DailyLimit && NextCall(call, CacheGet(c.cache, key, 0)) == None
  {
  }
}
