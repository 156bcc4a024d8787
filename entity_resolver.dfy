/** `findSameEntity`: search TheTVDB with each title variant in turn, walk the
    candidates, and return the first candidate and season whose first air day
    is the anime's start day. */
module EntityResolver {
  import opened JsBase
  import opened JsStrings
  import opened Dates
  import opened Catalog
  import opened TitleVariants
  import opened SeasonTable

  /** A candidate and the season (its number) found to start on the anime's start day. */
  datatype Hit = Hit(item: Candidate, season: nat)

  /** What `findSameEntity` resolves to on a match: the candidate, the season
      key, and the label, query and title of the variant that found it. */
  datatype Match = Match(item: Candidate, season: string, searchMethod: string, searchQuery: string, originalTitle: string)

  /** How a stage of the search completes, with the external calls it issued in order. */
  datatype Run<T> = Run(result: Completion<T>, calls: seq<Call>)

  /** A run preceded by calls already issued. */
  function Prepend<T>(log: seq<Call>, r: Run<T>): (p: Run<T>)
    ensures p.result == r.result && |p.calls| == |log| + |r.calls|
  {
    Run(r.result, log + r.calls)
  }

  /** `seasonStart === animeStart`: both days format without throwing, to the same text. */
  predicate SameDay(seasonStart: Date, animeStart: Date) {
    FormatYmd(seasonStart).Normal? && FormatYmd(seasonStart) == FormatYmd(animeStart)
  }

  /** On calendar days of the common era `SameDay` is equality, and an invalid
      day is never the same day. The year 0 is written as the year 1, so a day
      of the year 0 is the same day as that day of the year 1. */
  lemma SameDayIsEquality(a: Date, b: Date)
    ensures a == Invalid || b == Invalid ==> !SameDay(a, b)
    ensures IsCalendarDay(a) && IsCalendarDay(b) ==> (SameDay(a, b) <==> a == b)
    ensures a.Day? && b.Day? && a.year == 0 && b.year == 1 && a.month == b.month && a.day == b.day ==>
      a != b && SameDay(a, b)
  {
    if IsCalendarDay(a) && IsCalendarDay(b) {
      FormatYmdInjective(a, b);
    }
    if a.Day? && b.Day? && a.year == 0 && b.year == 1 && a.month == b.month && a.day == b.day {
      YearZeroFormatsAsOne(a, b);
    }
  }

  /** Every non-empty set of season numbers has a least element. */
  lemma LeastExists(keys: set<nat>)
    requires keys != {}
    ensures exists m :: m in keys && forall k | k in keys :: m <= k
  {
    var x :| x in keys;
    LeastAtMost(keys, x);
  }

  /** A set holding `x` has a least element, found by descending from `x`. */
  lemma {:induction false} LeastAtMost(keys: set<nat>, x: nat)
    requires x in keys
    ensures exists m :: m in keys && forall k | k in keys :: m <= k
    decreases x
  {
    if exists y :: y in keys && y < x {
      var y :| y in keys && y < x;
      LeastAtMost(keys, y);
    } else {
      assert forall k | k in keys :: x <= k;
    }
  }

  /** The least season number of a non-empty set. */
  ghost function Least(keys: set<nat>): (m: nat)
    requires keys != {}
    ensures m in keys && forall k | k in keys :: m <= k
  {
    LeastExists(keys);
    var m :| m in keys && forall k | k in keys :: m <= k; m
  }

  /** The inner `for (const key in res)` loop over the season keys still to
      visit, in ascending numeric order: format the season's start (which
      throws on an invalid date), format the anime's start day, and stop at
      the first equal pair. */
  ghost function CheckSeasons(table: Table, keys: set<nat>, day: Date): Completion<Option<nat>>
    requires keys <= table.Keys
    decreases keys
  {
    if keys == {} then Normal(None)
    else
      var key := Least(keys);
      match FormatYmd(table[key].start)
      case Throw(m) => Throw(m)
      case Normal(seasonStart) =>
        match FormatYmd(day)
        case Throw(m) => Throw(m)
        case Normal(animeStart) =>
          if seasonStart == animeStart then Normal(Some(key))
          else CheckSeasons(table, keys - {key}, day)
  }

  /** Awaiting `getSeasonsAndStartDates` for a TheTVDB id. */
  type SeasonsQuery = string -> Completion<Table>

  /** The season query the candidate loop uses. */
  ghost function SeasonsFn(services: Services): SeasonsQuery
  {
    id => SeasonsOutcome(services, id)
  }

  /** The candidate loop from index `i` on: skip a candidate without an id,
      otherwise fetch its seasons and check them. */
  ghost function TryCandidates(items: seq<Candidate>, i: nat, day: Date, seasons: SeasonsQuery): Run<Option<Hit>>
    requires i <= |items|
    decreases |items| - i, 1
  {
    if i == |items| then Run(Normal(None), [])
    else if !HasId(items[i]) then TryCandidates(items, i + 1, day, seasons)
    else
      var id := items[i].id.value;
      match seasons(id)
      case Throw(m) => Run(Throw(m), [GetEpisodes(id)])
      case Normal(table) =>
        Prepend([GetEpisodes(id)], AfterSeasons(CheckSeasons(table, table.Keys, day), items, i, day, seasons))
  }

  /** How the candidate loop goes on once the seasons of candidate `i` are checked. */
  ghost function AfterSeasons(checked: Completion<Option<nat>>, items: seq<Candidate>, i: nat, day: Date,
                              seasons: SeasonsQuery): Run<Option<Hit>>
    requires i < |items|
    decreases |items| - i, 0
  {
    match checked
    case Throw(m) => Run(Throw(m), [])
    case Normal(Some(key)) => Run(Normal(Some(Hit(items[i], key))), [])
    case Normal(None) => TryCandidates(items, i + 1, day, seasons)
  }

  /** The match reported for a hit found with a variant. */
  function MatchOf(h: Hit, variant: Variant): Match {
    Match(h.item, NatToString(h.season), Label(variant.kind), variant.query, variant.title)
  }

  /** The candidates a search returned; `null` counts as none. */
  function Hits(searched: Option<seq<Candidate>>): seq<Candidate> {
    if searched.Some? then searched.value else []
  }

  /** The variant loop from index `v` on: search with the variant's query and
      walk its candidates. A `null` or empty result has no candidates to walk. */
  ghost function TryVariants(vs: seq<Variant>, v: nat, day: Date, services: Services): Run<Option<Match>>
    requires v <= |vs|
    decreases |vs| - v, 1
  {
    if v == |vs| then Run(Normal(None), [])
    else
      var q := vs[v].query;
      match services.searchTheTvdb(q)
      case Throw(m) => Run(Throw(m), [Search(q)])
      case Normal(searched) =>
        Prepend([Search(q)], AfterCandidates(TryCandidates(Hits(searched), 0, day, SeasonsFn(services)), vs, v, day, services))
  }

  /** How the variant loop goes on once the candidates of variant `v` are walked. */
  ghost function AfterCandidates(walked: Run<Option<Hit>>, vs: seq<Variant>, v: nat, day: Date,
                                 services: Services): Run<Option<Match>>
    requires v < |vs|
    decreases |vs| - v, 0
  {
    match walked.result
    case Throw(m) => Run(Throw(m), walked.calls)
    case Normal(Some(h)) => Run(Normal(Some(MatchOf(h, vs[v]))), walked.calls)
    case Normal(None) => Prepend(walked.calls, TryVariants(vs, v + 1, day, services))
  }

  /** `findSameEntity(animeId)`: fetch the anime, then try its variants. A
      rejected call rejects the whole search. */
  ghost function Resolve(animeId: string, services: Services): Run<Option<Match>> {
    match services.getAnimeById(animeId)
    case Throw(m) => Run(Throw(m), [GetAnime(animeId)])
    case Normal(anime) =>
      Prepend([GetAnime(animeId)],
        TryVariants(CanonicalVariants(anime), 0, StartDay(anime, services), services))
  }

  lemma PrependTwice<T>(a: seq<Call>, b: seq<Call>, r: Run<T>)
    ensures Prepend(a, Prepend(b, r)) == Prepend(a + b, r)
  {
    assert a + (b + r.calls) == (a + b) + r.calls;
  }

  /** Walking no candidates, or having walked all of them, moves on to the next variant. */
  lemma CandidatesExhausted(items: seq<Candidate>, vs: seq<Variant>, v: nat, day: Date, services: Services)
    requires v < |vs|
    ensures AfterCandidates(TryCandidates(items, |items|, day, SeasonsFn(services)), vs, v, day, services)
         == TryVariants(vs, v + 1, day, services)
  {
    assert [] + TryVariants(vs, v + 1, day, services).calls == TryVariants(vs, v + 1, day, services).calls;
  }

  /** One search of the variant loop that does not reject. */
  lemma SearchStep(vs: seq<Variant>, v: nat, day: Date, services: Services, searched: Option<seq<Candidate>>)
    requires v < |vs|
    requires services.searchTheTvdb(vs[v].query) == Normal(searched)
    ensures TryVariants(vs, v, day, services)
         == Prepend([Search(vs[v].query)], AfterCandidates(TryCandidates(Hits(searched), 0, day, SeasonsFn(services)), vs, v, day, services))
  {
  }

  /** Calls issued before the candidate loop goes on stay in front of the variant loop's calls. */
  lemma AfterCandidatesPrepend(log: seq<Call>, walked: Run<Option<Hit>>, vs: seq<Variant>, v: nat, day: Date,
                               services: Services)
    requires v < |vs|
    ensures AfterCandidates(Prepend(log, walked), vs, v, day, services)
         == Prepend(log, AfterCandidates(walked, vs, v, day, services))
  {
    if walked.result == Normal(None) {
      PrependTwice(log, walked.calls, TryVariants(vs, v + 1, day, services));
    }
  }

  /** One candidate with an id whose seasons were fetched. */
  lemma CandidateStep(items: seq<Candidate>, i: nat, day: Date, seasons: SeasonsQuery, table: Table)
    requires i < |items| && HasId(items[i])
    requires seasons(items[i].id.value) == Normal(table)
    ensures TryCandidates(items, i, day, seasons)
         == Prepend([GetEpisodes(items[i].id.value)], AfterSeasons(CheckSeasons(table, table.Keys, day), items, i, day, seasons))
  {
  }

  /** The candidates that the search for variant `v` returned, when it did not reject. */
  ghost function ResultsOf(vs: seq<Variant>, v: nat, services: Services): seq<Candidate>
    requires v < |vs|
  {
    match services.searchTheTvdb(vs[v].query)
    case Normal(searched) => Hits(searched)
    case Throw(_) => []
  }

  /** Candidate `c` of `items` has an id, its seasons were fetched, and its season `key` starts on `day`. */
  ghost predicate HitAt(items: seq<Candidate>, c: nat, key: nat, day: Date, seasons: SeasonsQuery) {
    && c < |items| && HasId(items[c])
    && seasons(items[c].id.value).Normal?
    && key in seasons(items[c].id.value).value
    && SameDay(seasons(items[c].id.value).value[key].start, day)
  }

  /** Position `(w', c', k')` comes before `(w, c, k)` in variant, candidate, season order. */
  predicate Earlier(w': nat, c': nat, k': nat, w: nat, c: nat, k: nat) {
    w' < w || (w' == w && c' < c) || (w' == w && c' == c && k' < k)
  }

  /** A season found by the key loop starts on the day, and no smaller key does. */
  lemma {:induction false} CheckSeasonsFound(table: Table, keys: set<nat>, day: Date, key: nat)
    requires keys <= table.Keys
    requires CheckSeasons(table, keys, day) == Normal(Some(key))
    ensures key in keys && SameDay(table[key].start, day)
    ensures forall k | k in keys && k < key :: !SameDay(table[k].start, day)
    decreases keys
  {
    var m := Least(keys);
    if FormatYmd(table[m].start) != FormatYmd(day) {
      CheckSeasonsFound(table, keys - {m}, day, key);
      forall k | k in keys && k < key ensures !SameDay(table[k].start, day) {
        if k != m {
          assert k in keys - {m};
        }
      }
    }
  }

  /** When the key loop finds nothing, no season starts on the day. */
  lemma {:induction false} CheckSeasonsNone(table: Table, keys: set<nat>, day: Date)
    requires keys <= table.Keys
    requires CheckSeasons(table, keys, day) == Normal(None)
    ensures forall k | k in keys :: !SameDay(table[k].start, day)
    decreases keys
  {
    if keys != {} {
      var m := Least(keys);
      CheckSeasonsNone(table, keys - {m}, day);
      forall k | k in keys ensures !SameDay(table[k].start, day) {
        if k != m {
          assert k in keys - {m};
        }
      }
    }
  }

  /** No season of candidate `c` below `bound` is a hit, given the key loop's verdict on its table. */
  lemma NoHitBelow(items: seq<Candidate>, c: nat, day: Date, seasons: SeasonsQuery, table: Table, bound: nat)
    requires c < |items| && HasId(items[c])
    requires seasons(items[c].id.value) == Normal(table)
    requires forall k: nat | k in table.Keys && k < bound :: !SameDay(table[k].start, day)
    ensures forall k: nat | k < bound :: !HitAt(items, c, k, day, seasons)
  {
  }

  /** A hit of the candidate loop is the first hit from candidate `i` on. */
  lemma {:induction false} TryCandidatesFound(items: seq<Candidate>, i: nat, day: Date, seasons: SeasonsQuery, h: Hit)
    returns (c: nat)
    requires i <= |items|
    requires TryCandidates(items, i, day, seasons).result == Normal(Some(h))
    ensures i <= c < |items| && h.item == items[c] && HitAt(items, c, h.season, day, seasons)
    ensures forall c': nat, k': nat | i <= c' < c :: !HitAt(items, c', k', day, seasons)
    ensures forall k': nat | k' < h.season :: !HitAt(items, c, k', day, seasons)
    decreases |items| - i
  {
    if !HasId(items[i]) || CheckSeasons(seasons(items[i].id.value).value,
                                        seasons(items[i].id.value).value.Keys, day) == Normal(None) {
      NoHitAtSkipped(items, i, day, seasons);
      c := TryCandidatesFound(items, i + 1, day, seasons, h);
      forall c': nat, k': nat | i <= c' < c ensures !HitAt(items, c', k', day, seasons) {
      }
    } else {
      FoundHere(items, i, day, seasons, h);
      c := i;
    }
  }

  /** A candidate whose key loop finds a season is the hit, and no smaller season of it is one. */
  lemma FoundHere(items: seq<Candidate>, i: nat, day: Date, seasons: SeasonsQuery, h: Hit)
    requires i < |items| && HasId(items[i])
    requires TryCandidates(items, i, day, seasons).result == Normal(Some(h))
    requires CheckSeasons(seasons(items[i].id.value).value, seasons(items[i].id.value).value.Keys, day) != Normal(None)
    ensures h.item == items[i] && HitAt(items, i, h.season, day, seasons)
    ensures forall k': nat | k' < h.season :: !HitAt(items, i, k', day, seasons)
  {
    var table := seasons(items[i].id.value).value;
    CandidateStep(items, i, day, seasons, table);
    CheckSeasonsFound(table, table.Keys, day, h.season);
    NoHitBelow(items, i, day, seasons, table, h.season);
  }

  /** A candidate the loop walks past without stopping has no hit. */
  lemma NoHitAtSkipped(items: seq<Candidate>, i: nat, day: Date, seasons: SeasonsQuery)
    requires i < |items|
    requires TryCandidates(items, i, day, seasons).result.Normal?
    requires HasId(items[i]) ==>
      var table := seasons(items[i].id.value).value;
      CheckSeasons(table, table.Keys, day) == Normal(None)
    ensures TryCandidates(items, i, day, seasons).result == TryCandidates(items, i + 1, day, seasons).result
    ensures forall k: nat :: !HitAt(items, i, k, day, seasons)
  {
    if HasId(items[i]) {
      var table := seasons(items[i].id.value).value;
      CandidateStep(items, i, day, seasons, table);
      CheckSeasonsNone(table, table.Keys, day);
      NoHitBelow(items, i, day, seasons, table, 0);
      forall k: nat ensures !HitAt(items, i, k, day, seasons) {
        NoHitBelow(items, i, day, seasons, table, k + 1);
      }
    }
  }

  /** When the candidate loop finds nothing, no candidate from `i` on has a hit. */
  lemma {:induction false} TryCandidatesNone(items: seq<Candidate>, i: nat, day: Date, seasons: SeasonsQuery)
    requires i <= |items|
    requires TryCandidates(items, i, day, seasons).result == Normal(None)
    ensures forall c: nat, k: nat | i <= c :: !HitAt(items, c, k, day, seasons)
    decreases |items| - i
  {
    if i < |items| {
      NoHitAtSkipped(items, i, day, seasons);
      TryCandidatesNone(items, i + 1, day, seasons);
    }
  }

  /** When the candidate loop finds nothing, the seasons of every candidate
      with an id from `i` on were fetched. */
  lemma {:induction false} TryCandidatesNoneFetches(items: seq<Candidate>, i: nat, day: Date, seasons: SeasonsQuery)
    requires i <= |items|
    requires TryCandidates(items, i, day, seasons).result == Normal(None)
    ensures forall c: nat | i <= c < |items| && HasId(items[c]) ::
      GetEpisodes(items[c].id.value) in TryCandidates(items, i, day, seasons).calls
    decreases |items| - i
  {
    if i < |items| {
      if HasId(items[i]) {
        var table := seasons(items[i].id.value).value;
        CandidateStep(items, i, day, seasons, table);
        match CheckSeasons(table, table.Keys, day) {
          case Normal(None) =>
            TryCandidatesNoneFetches(items, i + 1, day, seasons);
            assert TryCandidates(items, i, day, seasons).calls
                == [GetEpisodes(items[i].id.value)] + TryCandidates(items, i + 1, day, seasons).calls;
        }
      } else {
        TryCandidatesNoneFetches(items, i + 1, day, seasons);
      }
    }
  }

  /** A match of the variant loop is the first hit from variant `v` on, in
      variant, candidate and ascending season order, and it carries the
      label, query and title of the variant that found it. */
  lemma {:induction false} TryVariantsFound(vs: seq<Variant>, v: nat, day: Date, services: Services, m: Match)
    returns (w: nat, c: nat, key: nat)
    requires v <= |vs|
    requires TryVariants(vs, v, day, services).result == Normal(Some(m))
    ensures v <= w < |vs| && HitAt(ResultsOf(vs, w, services), c, key, day, SeasonsFn(services))
    ensures m == MatchOf(Hit(ResultsOf(vs, w, services)[c], key), vs[w])
    ensures forall w': nat, c': nat, k': nat | v <= w' < |vs| && Earlier(w', c', k', w, c, key) ::
      !HitAt(ResultsOf(vs, w', services), c', k', day, SeasonsFn(services))
    decreases |vs| - v
  {
    var items := ResultsOf(vs, v, services);
    SearchStep(vs, v, day, services, services.searchTheTvdb(vs[v].query).value);
    var walked := TryCandidates(items, 0, day, SeasonsFn(services));
    if walked.result == Normal(None) {
      TryCandidatesNone(items, 0, day, SeasonsFn(services));
      w, c, key := TryVariantsFound(vs, v + 1, day, services, m);
      forall w': nat, c': nat, k': nat | v <= w' < |vs| && Earlier(w', c', k', w, c, key)
        ensures !HitAt(ResultsOf(vs, w', services), c', k', day, SeasonsFn(services))
      {
        if w' > v {
        }
      }
    } else {
      var h := walked.result.value.value;
      c := TryCandidatesFound(items, 0, day, SeasonsFn(services), h);
      w, key := v, h.season;
      forall w': nat, c': nat, k': nat | v <= w' < |vs| && Earlier(w', c', k', w, c, key)
        ensures !HitAt(ResultsOf(vs, w', services), c', k', day, SeasonsFn(services))
      {
        assert w' == v;
        if c' == c {
          assert k' < h.season;
        }
      }
    }
  }

  /** When the variant loop finds nothing, no variant from `v` on has a hit, every
      such variant's query was searched, and every candidate with an id was fetched. */
  lemma {:induction false} TryVariantsNone(vs: seq<Variant>, v: nat, day: Date, services: Services)
    requires v <= |vs|
    requires TryVariants(vs, v, day, services).result == Normal(None)
    ensures forall w: nat, c: nat, k: nat | v <= w < |vs| :: !HitAt(ResultsOf(vs, w, services), c, k, day, SeasonsFn(services))
    ensures forall w: nat | v <= w < |vs| :: Search(vs[w].query) in TryVariants(vs, v, day, services).calls
    ensures forall w: nat, c: nat | v <= w < |vs| && c < |ResultsOf(vs, w, services)| && HasId(ResultsOf(vs, w, services)[c]) ::
      GetEpisodes(ResultsOf(vs, w, services)[c].id.value) in TryVariants(vs, v, day, services).calls
    decreases |vs| - v
  {
    if v < |vs| {
      var items := ResultsOf(vs, v, services);
      SearchStep(vs, v, day, services, services.searchTheTvdb(vs[v].query).value);
      var walked := TryCandidates(items, 0, day, SeasonsFn(services));
      var rest := TryVariants(vs, v + 1, day, services);
      assert walked.result == Normal(None);
      TryCandidatesNone(items, 0, day, SeasonsFn(services));
      TryCandidatesNoneFetches(items, 0, day, SeasonsFn(services));
      TryVariantsNone(vs, v + 1, day, services);
      var calls := TryVariants(vs, v, day, services).calls;
      assert calls == [Search(vs[v].query)] + (walked.calls + rest.calls);
      forall w: nat, c: nat, k: nat | v <= w < |vs|
        ensures !HitAt(ResultsOf(vs, w, services), c, k, day, SeasonsFn(services))
      {
        if w > v {
        }
      }
      forall w: nat | v <= w < |vs| ensures Search(vs[w].query) in calls {
        if w > v {
          assert Search(vs[w].query) in rest.calls;
        }
      }
      forall w: nat, c: nat | v <= w < |vs| && c < |ResultsOf(vs, w, services)| && HasId(ResultsOf(vs, w, services)[c])
        ensures GetEpisodes(ResultsOf(vs, w, services)[c].id.value) in calls
      {
        if w > v {
          assert GetEpisodes(ResultsOf(vs, w, services)[c].id.value) in rest.calls;
        } else {
          assert GetEpisodes(items[c].id.value) in walked.calls;
        }
      }
    }
  }

  /** A search that returns `null` or an empty list moves straight on to the next variant. */
  lemma SkippedSearch(vs: seq<Variant>, v: nat, day: Date, services: Services)
    requires v < |vs|
    requires services.searchTheTvdb(vs[v].query) in {Normal(None), Normal(Some([]))}
    ensures TryVariants(vs, v, day, services) == Prepend([Search(vs[v].query)], TryVariants(vs, v + 1, day, services))
  {
    CandidatesExhausted([], vs, v, day, services);
  }

  /** The search result of `findSameEntity`:
      a match is the first hit in variant → candidate → ascending-season order,
      with the label, query and title of the variant that found it. */
  lemma ResolveFound(animeId: string, services: Services) returns (w: nat, c: nat, key: nat)
    requires Resolve(animeId, services).result.Normal? && Resolve(animeId, services).result.value.Some?
    ensures services.getAnimeById(animeId).Normal?
    ensures var anime := services.getAnimeById(animeId).value;
      var vs := CanonicalVariants(anime);
      var day := StartDay(anime, services);
      && w < |vs| && HitAt(ResultsOf(vs, w, services), c, key, day, SeasonsFn(services))
      && Resolve(animeId, services).result.value.value == MatchOf(Hit(ResultsOf(vs, w, services)[c], key), vs[w])
      && forall w': nat, c': nat, k': nat | w' < |vs| && Earlier(w', c', k', w, c, key) ::
           !HitAt(ResultsOf(vs, w', services), c', k', day, SeasonsFn(services))
  {
    var anime := services.getAnimeById(animeId).value;
    w, c, key := TryVariantsFound(CanonicalVariants(anime), 0, StartDay(anime, services), services,
      Resolve(animeId, services).result.value.value);
  }

  /** `null` comes back only after every variant was searched and every
      candidate with an id was fetched, and none of them has a hit. */
  lemma ResolveNone(animeId: string, services: Services)
    requires Resolve(animeId, services).result == Normal(None)
    ensures services.getAnimeById(animeId).Normal?
    ensures var anime := services.getAnimeById(animeId).value;
      var vs := CanonicalVariants(anime);
      var day := StartDay(anime, services);
      var calls := Resolve(animeId, services).calls;
      && (forall w: nat, c: nat, k: nat | w < |vs| :: !HitAt(ResultsOf(vs, w, services), c, k, day, SeasonsFn(services)))
      && (forall w: nat | w < |vs| :: Search(vs[w].query) in calls)
      && (forall w: nat, c: nat | w < |vs| && c < |ResultsOf(vs, w, services)| && HasId(ResultsOf(vs, w, services)[c]) ::
            GetEpisodes(ResultsOf(vs, w, services)[c].id.value) in calls)
  {
    var anime := services.getAnimeById(animeId).value;
    TryVariantsNone(CanonicalVariants(anime), 0, StartDay(anime, services), services);
  }

  /** Every episode fetch is for a truthy id. */
  ghost predicate FetchesHaveIds(calls: seq<Call>) {
    forall j | 0 <= j < |calls| && calls[j].GetEpisodes? :: calls[j].tvdbId != ""
  }

  lemma FetchesHaveIdsAppend(a: seq<Call>, b: seq<Call>)
    requires FetchesHaveIds(a) && FetchesHaveIds(b)
    ensures FetchesHaveIds(a + b)
  {
    forall j | 0 <= j < |a + b| && (a + b)[j].GetEpisodes? ensures (a + b)[j].tvdbId != "" {
      if j >= |a| {
        assert (a + b)[j] == b[j - |a|];
      }
    }
  }

  lemma {:induction false} CandidateFetchesHaveIds(items: seq<Candidate>, i: nat, day: Date, seasons: SeasonsQuery)
    requires i <= |items|
    ensures FetchesHaveIds(TryCandidates(items, i, day, seasons).calls)
    decreases |items| - i
  {
    if i < |items| {
      CandidateFetchesHaveIds(items, i + 1, day, seasons);
      if HasId(items[i]) {
        FetchesHaveIdsAppend([GetEpisodes(items[i].id.value)], TryCandidates(items, i + 1, day, seasons).calls);
      }
    }
  }

  lemma {:induction false} VariantFetchesHaveIds(vs: seq<Variant>, v: nat, day: Date, services: Services)
    requires v <= |vs|
    ensures FetchesHaveIds(TryVariants(vs, v, day, services).calls)
    decreases |vs| - v
  {
    if v < |vs| {
      var q := vs[v].query;
      if services.searchTheTvdb(q).Normal? {
        var walked := TryCandidates(Hits(services.searchTheTvdb(q).value), 0, day, SeasonsFn(services));
        CandidateFetchesHaveIds(Hits(services.searchTheTvdb(q).value), 0, day, SeasonsFn(services));
        VariantFetchesHaveIds(vs, v + 1, day, services);
        FetchesHaveIdsAppend(walked.calls, TryVariants(vs, v + 1, day, services).calls);
        FetchesHaveIdsAppend([Search(q)], AfterCandidates(walked, vs, v, day, services).calls);
      }
    }
  }

  /** The anime is fetched first, and a candidate without an id never triggers an episode fetch. */
  lemma ResolveCalls(animeId: string, services: Services)
    ensures Resolve(animeId, services).calls[0] == GetAnime(animeId)
    ensures FetchesHaveIds(Resolve(animeId, services).calls)
  {
    if services.getAnimeById(animeId).Normal? {
      var anime := services.getAnimeById(animeId).value;
      var r := TryVariants(CanonicalVariants(anime), 0, StartDay(anime, services), services);
      VariantFetchesHaveIds(CanonicalVariants(anime), 0, StartDay(anime, services), services);
      FetchesHaveIdsAppend([GetAnime(animeId)], r.calls);
    }
  }

  /** Every call of `calls` is an episode fetch. */
  ghost predicate OnlyFetches(calls: seq<Call>) {
    forall j | 0 <= j < |calls| :: calls[j].GetEpisodes?
  }

  /** The log ends with the search for the match's query, followed only by
      episode fetches, the last of them for the matched candidate: no call
      follows the match. */
  ghost predicate EndsAtMatch(calls: seq<Call>, m: Match) {
    && HasId(m.item) && |calls| >= 2
    && calls[|calls| - 1] == GetEpisodes(m.item.id.value)
    && exists k :: 0 <= k < |calls| - 1 && calls[k] == Search(m.searchQuery) && OnlyFetches(calls[k + 1..])
  }

  lemma EndsAtMatchPrepend(a: seq<Call>, b: seq<Call>, m: Match)
    requires EndsAtMatch(b, m)
    ensures EndsAtMatch(a + b, m)
  {
    var c := a + b;
    var k :| 0 <= k < |b| - 1 && b[k] == Search(m.searchQuery) && OnlyFetches(b[k + 1..]);
    assert c[|a| + k] == b[k] && c[|c| - 1] == b[|b| - 1];
    assert c[|a| + k + 1..] == b[k + 1..];
  }

  /** The candidate loop that finds a hit issues only episode fetches, and
      the last one is for the hit. */
  lemma {:induction false} TryCandidatesFoundCalls(items: seq<Candidate>, i: nat, day: Date, seasons: SeasonsQuery, h: Hit)
    requires i <= |items|
    requires TryCandidates(items, i, day, seasons).result == Normal(Some(h))
    ensures var calls := TryCandidates(items, i, day, seasons).calls;
      && HasId(h.item) && |calls| > 0 && OnlyFetches(calls)
      && calls[|calls| - 1] == GetEpisodes(h.item.id.value)
    decreases |items| - i
  {
    if !HasId(items[i]) {
      TryCandidatesFoundCalls(items, i + 1, day, seasons, h);
    } else {
      var id := items[i].id.value;
      var table := seasons(id).value;
      CandidateStep(items, i, day, seasons, table);
      var calls := TryCandidates(items, i, day, seasons).calls;
      match CheckSeasons(table, table.Keys, day) {
        case Normal(None) =>
          TryCandidatesFoundCalls(items, i + 1, day, seasons, h);
          var rest := TryCandidates(items, i + 1, day, seasons).calls;
          assert calls == [GetEpisodes(id)] + rest;
          assert calls[|calls| - 1] == rest[|rest| - 1];
        case Normal(Some(key)) =>
          assert calls == [GetEpisodes(id)];
      }
    }
  }

  /** A match of the variant loop ends the log at the match's own fetch. */
  lemma {:induction false} TryVariantsFoundCalls(vs: seq<Variant>, v: nat, day: Date, services: Services, m: Match)
    requires v <= |vs|
    requires TryVariants(vs, v, day, services).result == Normal(Some(m))
    ensures EndsAtMatch(TryVariants(vs, v, day, services).calls, m)
    decreases |vs| - v
  {
    var q := vs[v].query;
    var items := ResultsOf(vs, v, services);
    SearchStep(vs, v, day, services, services.searchTheTvdb(q).value);
    var walked := TryCandidates(items, 0, day, SeasonsFn(services));
    var calls := TryVariants(vs, v, day, services).calls;
    if walked.result == Normal(None) {
      TryVariantsFoundCalls(vs, v + 1, day, services, m);
      var rest := TryVariants(vs, v + 1, day, services).calls;
      assert calls == ([Search(q)] + walked.calls) + rest;
      EndsAtMatchPrepend([Search(q)] + walked.calls, rest, m);
    } else {
      var h := walked.result.value.value;
      TryCandidatesFoundCalls(items, 0, day, SeasonsFn(services), h);
      assert m == MatchOf(h, vs[v]);
      assert calls == [Search(q)] + walked.calls;
      assert calls[0] == Search(m.searchQuery) && calls[1..] == walked.calls;
    }
  }

  /** After a match `findSameEntity` issues no further call: its log ends
      with the search that found the match and the episode fetches of that
      search's candidates, the last of them for the matched candidate. */
  lemma ResolveEndsAtMatch(animeId: string, services: Services)
    requires Resolve(animeId, services).result.Normal? && Resolve(animeId, services).result.value.Some?
    ensures EndsAtMatch(Resolve(animeId, services).calls, Resolve(animeId, services).result.value.value)
  {
    var anime := services.getAnimeById(animeId).value;
    TryVariantsFoundCalls(CanonicalVariants(anime), 0, StartDay(anime, services), services,
      Resolve(animeId, services).result.value.value);
    EndsAtMatchPrepend([GetAnime(animeId)], TryVariants(CanonicalVariants(anime), 0, StartDay(anime, services), services).calls,
      Resolve(animeId, services).result.value.value);
  }

  /** The callback given the season table of one candidate: visit the keys in
      ascending order and return the first whose start day is the anime's. */
  method MatchSeason(table: Table, day: Date) returns (r: Completion<Option<nat>>)
    ensures r == CheckSeasons(table, table.Keys, day)
  {
    var remaining := table.Keys;
    while remaining != {}
      invariant remaining <= table.Keys
      invariant CheckSeasons(table, table.Keys, day) == CheckSeasons(table, remaining, day)
      decreases remaining
    {
      LeastExists(remaining);
      var key :| key in remaining && forall k: nat | k in remaining :: key <= k;
      assert key == Least(remaining);
      var seasonStart := FormatYmd(table[key].start);
      if seasonStart.Throw? {
        return Throw(seasonStart.message);
      }
      var animeStart := FormatYmd(day);
      if animeStart.Throw? {
        return Throw(animeStart.message);
      }
      if seasonStart.value == animeStart.value {
        return Normal(Some(key));
      }
      remaining := remaining - {key};
    }
    return Normal(None);
  }

  /** `findSameEntity`, with its nested loops, `continue`s and early returns.
      `calls` records the external calls in the order they are issued. */
  method FindSameEntity(animeId: string, services: Services) returns (r: Completion<Option<Match>>, ghost calls: seq<Call>)
    ensures r == Resolve(animeId, services).result
    ensures calls == Resolve(animeId, services).calls
  {
    calls := [GetAnime(animeId)];
    var fetched := services.getAnimeById(animeId);
    if fetched.Throw? {
      return Throw(fetched.message), calls;
    }
    var anime := fetched.value;
    var variants := BuildSearchVariants(anime);
    var day := StartDay(anime, services);
    for v := 0 to |variants|
      invariant Resolve(animeId, services) == Prepend(calls, TryVariants(variants, v, day, services))
    {
      var variant := variants[v];
      var searched := services.searchTheTvdb(variant.query);
      ghost var before := calls;
      calls := calls + [Search(variant.query)];
      if searched.Throw? {
        return Throw(searched.message), calls;
      }
      SearchStep(variants, v, day, services, searched.value);
      PrependTwice(before, [Search(variant.query)],
        AfterCandidates(TryCandidates(Hits(searched.value), 0, day, SeasonsFn(services)), variants, v, day, services));
      if searched.value.None? || searched.value.value == [] {
        CandidatesExhausted([], variants, v, day, services);
        continue;
      }
      var items := searched.value.value;
      for i := 0 to |items|
        invariant Resolve(animeId, services)
          == Prepend(calls, AfterCandidates(TryCandidates(items, i, day, SeasonsFn(services)), variants, v, day, services))
      {
        var item := items[i];
        if !HasId(item) {
          continue;
        }
        var id := item.id.value;
        var seasons := GetSeasonsAndStartDates(id, services);
        ghost var before := calls;
        calls := calls + [GetEpisodes(id)];
        if seasons.Throw? {
          return Throw(seasons.message), calls;
        }
        var table := seasons.value;
        CandidateStep(items, i, day, SeasonsFn(services), table);
        var checked := MatchSeason(table, day);
        ghost var after := AfterSeasons(checked, items, i, day, SeasonsFn(services));
        AfterCandidatesPrepend([GetEpisodes(id)], after, variants, v, day, services);
        PrependTwice(before, [GetEpisodes(id)], AfterCandidates(after, variants, v, day, services));
        if checked.Throw? {
          assert calls + [] == calls;
          return Throw(checked.message), calls;
        }
        if checked.value.Some? {
          assert calls + [] == calls;
          return Normal(Some(MatchOf(Hit(item, checked.value.value), variant))), calls;
        }
      }
      CandidatesExhausted(items, variants, v, day, services);
    }
    assert calls + [] == calls;
    return Normal(None), calls;
  }
}
