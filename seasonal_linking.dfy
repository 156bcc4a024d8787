/** The state of the seasonal-linking page and the operations that change it:
    initialising the per-anime results from the saved links, linking one
    anime, linking a whole season in a batch, and saving the links found. */
module SeasonalLinking {
  import opened JsBase
  import opened JsStrings
  import opened Dates
  import opened Catalog
  import opened TitleVariants
  import opened EntityResolver
  import opened LinkingFormat

  datatype Status = Pending | Linking | Success | Failed | Manual | AlreadyLinked

  /** A `LinkingResult`. Every field but the status may be absent: an entry
      first created by the `linking` update holds only a status. */
  datatype Entry = Entry(
    animeId: Option<string>,
    animeTitle: Option<string>,
    tvdbId: Option<string>,
    tvdbTitle: Option<string>,
    tvdbImage: Option<string>,
    season: Option<int>,
    status: Status,
    message: Option<string>)

  /** `{...results[id]}`: the entry's fields, or none when there is no entry.
      Every use sets the status right after. */
  function Spread(results: map<string, Entry>, id: string): (e: Entry)
    ensures id in results ==> e == results[id]
    ensures id !in results ==> e.animeId.None? && e.animeTitle.None? && e.tvdbId.None? && e.season.None?
  {
    if id in results then results[id] else Entry(None, None, None, None, None, None, Pending, None)
  }

  /** `parseInt(s, 10)` on a string that starts with its digits: the value of
      the leading digit run, or `None` for `NaN`. */
  function ParseInt(s: string): (r: Option<int>)
    ensures r.None? <==> s == [] || !IsDigit(s[0])
  {
    var n := DigitRun(s);
    if n == 0 then None
    else
      assert AllDigits(s[..n]);
      Some(ParseDecimal(s[..n]))
  }

  /** A season key reads back as its number. */
  lemma ParseSeasonKey(n: nat)
    ensures ParseInt(NatToString(n)) == Some(n)
  {
    var s := NatToString(n);
    ParseNatToString(n);
    assert DigitRun(s) == |s|;
    assert s[..|s|] == s;
  }

  // ---------------------------------------------------------------- init

  /** Link `i` is the first saved link for the anime `id`. */
  ghost predicate FirstLink(links: seq<SavedLink>, id: string, i: int) {
    0 <= i < |links| && links[i].animeID == id && forall j :: 0 <= j < i ==> links[j].animeID != id
  }

  /** `savedLinks.find(link => link.animeID === id)`: the first link for the
      anime, or none exactly when no link is for it. */
  function FindLink(links: seq<SavedLink>, id: string): (r: Option<SavedLink>)
    ensures r.Some? ==> r.value in links && r.value.animeID == id
    ensures r.Some? ==> exists i :: FirstLink(links, id, i) && links[i] == r.value
    ensures r.None? <==> forall l | l in links :: l.animeID != id
  {
    if links == [] then None
    else if links[0].animeID == id then
      assert FirstLink(links, id, 0);
      Some(links[0])
    else
      var r := FindLink(links[1..], id);
      if r.Some? then FirstLinkShift(links, id, r.value); r else r
  }

  /** The first link for `id` after a head that is not for it is the first link overall. */
  lemma {:induction false} FirstLinkShift(links: seq<SavedLink>, id: string, link: SavedLink)
    requires links != [] && links[0].animeID != id
    requires exists i :: FirstLink(links[1..], id, i) && links[1..][i] == link
    ensures exists i :: FirstLink(links, id, i) && links[i] == link
  {
    var i :| FirstLink(links[1..], id, i) && links[1..][i] == link;
    assert FirstLink(links, id, i + 1);
  }

  /** The entry created for an anime that has none yet. */
  function InitialEntry(anime: Anime, links: seq<SavedLink>): Entry {
    var title := OrElse(anime.titleEn, OrElse(anime.titleJp, ""));
    match FindLink(links, anime.id)
    case Some(link) =>
      Entry(Some(anime.id), Some(title), Some(link.thetvdbID), None, None, Some(link.season), AlreadyLinked,
        Some("Already linked to TVDB ID: " + link.thetvdbID + " (Season " + IntToString(link.season) + ")"))
    case None =>
      Entry(Some(anime.id), Some(title), None, None, None, None, Pending, None)
  }

  /** The `initialResults` that the `forEach` collects: an entry for each
      anime without one in `results`; a later anime with the same id wins. */
  function InitialResults(results: map<string, Entry>, animeList: seq<Anime>, links: seq<SavedLink>): map<string, Entry>
    decreases |animeList|
  {
    if animeList == [] then map[]
    else
      var anime := animeList[|animeList| - 1];
      var earlier := InitialResults(results, animeList[..|animeList| - 1], links);
      if anime.id in results then earlier else earlier[anime.id := InitialEntry(anime, links)]
  }

  /** `({...prev, ...initialResults})`. */
  function Initialised(results: map<string, Entry>, animeList: seq<Anime>, links: seq<SavedLink>): map<string, Entry> {
    results + InitialResults(results, animeList, links)
  }

  /** The ids the collected results are for, and the entry each is given. */
  lemma {:induction false} InitialResultsKeys(results: map<string, Entry>, animeList: seq<Anime>, links: seq<SavedLink>,
                                              id: string)
    ensures id in InitialResults(results, animeList, links)
        <==> id !in results && exists i :: 0 <= i < |animeList| && animeList[i].id == id
    ensures id in InitialResults(results, animeList, links) ==>
      exists i :: 0 <= i < |animeList| && animeList[i].id == id
        && InitialResults(results, animeList, links)[id] == InitialEntry(animeList[i], links)
    decreases |animeList|
  {
    if animeList != [] {
      var n := |animeList| - 1;
      var init := animeList[..n];
      InitialResultsKeys(results, init, links, id);
      if exists i :: 0 <= i < |animeList| && animeList[i].id == id {
        var i :| 0 <= i < |animeList| && animeList[i].id == id;
        if i < n {
          assert init[i] == animeList[i];
        }
      }
      if exists i :: 0 <= i < n && init[i].id == id {
        var i :| 0 <= i < n && init[i].id == id;
        assert animeList[i] == init[i];
      }
    }
  }

  /** Initialisation never overwrites an entry; it adds one for each listed
      anime without one, `already_linked` exactly when a saved link has that
      anime's id and `pending` otherwise; no other id gets an entry. */
  lemma InitialisationSpec(results: map<string, Entry>, animeList: seq<Anime>, links: seq<SavedLink>, id: string)
    ensures id in results ==>
      id in Initialised(results, animeList, links) && Initialised(results, animeList, links)[id] == results[id]
    ensures id in Initialised(results, animeList, links)
        <==> id in results || exists i :: 0 <= i < |animeList| && animeList[i].id == id
    ensures id !in results && id in Initialised(results, animeList, links) ==>
      var e := Initialised(results, animeList, links)[id];
      && e.animeId == Some(id)
      && (e.status == AlreadyLinked <==> exists l | l in links :: l.animeID == id)
      && (e.status == Pending <==> forall l | l in links :: l.animeID != id)
      && (e.status == AlreadyLinked ==>
            exists i :: FirstLink(links, id, i) && e.tvdbId == Some(links[i].thetvdbID) && e.season == Some(links[i].season))
  {
    InitialResultsKeys(results, animeList, links, id);
  }

  // ---------------------------------------------------------------- attempt

  const NoTitleText := "Failed: No title available for search"
  const NoStartDateText := "Failed: No start date available for date matching"

  /** `item.translations?.find(t => t?.key === "eng")?.value`. */
  function EnglishTranslation(translations: seq<Translation>): (r: Option<string>)
    ensures r.Some? ==> exists t | t in translations :: t.key == Some("eng") && t.value == r
  {
    if translations == [] then None
    else if translations[0].key == Some("eng") then translations[0].value
    else EnglishTranslation(translations[1..])
  }

  /** The TheTVDB title shown for a match: the English translation when it is
      truthy, the candidate's title otherwise. */
  function TvdbTitle(item: Candidate): (r: string)
    ensures r == item.title
         || (item.translations.Some? && exists t | t in item.translations.value :: t.key == Some("eng") && t.value == Some(r))
  {
    OrElse(if item.translations.Some? then EnglishTranslation(item.translations.value) else None, item.title)
  }

  /** Entry `i` is the first translation keyed `eng`. */
  ghost predicate FirstEnglish(ts: seq<Translation>, i: nat) {
    i < |ts| && ts[i].key == Some("eng") && forall j :: 0 <= j < i ==> ts[j].key != Some("eng")
  }

  /** `find` stops at the first entry keyed `eng`: the translation is that entry's value. */
  lemma {:induction false} EnglishTranslationFirst(ts: seq<Translation>, i: nat)
    requires FirstEnglish(ts, i)
    ensures EnglishTranslation(ts) == ts[i].value
    decreases i
  {
    if i > 0 {
      assert ts[0].key != Some("eng");
      forall j | 0 <= j < i - 1 ensures ts[1..][j].key != Some("eng") {
        assert ts[1..][j] == ts[j + 1];
      }
      EnglishTranslationFirst(ts[1..], i - 1);
    }
  }

  /** Without an entry keyed `eng`, `find` gives `undefined`. */
  lemma {:induction false} EnglishTranslationNone(ts: seq<Translation>)
    requires forall j :: 0 <= j < |ts| ==> ts[j].key != Some("eng")
    ensures EnglishTranslation(ts) == None
  {
    if ts != [] {
      assert forall j :: 0 <= j < |ts[1..]| ==> ts[1..][j] == ts[j + 1];
      EnglishTranslationNone(ts[1..]);
    }
  }

  /** The title shown for a match is the value of its first `eng` translation
      when that value is a non-empty string, and the candidate's own title
      when the value is `null` or `''`. */
  lemma TvdbTitleFirstEnglish(item: Candidate, i: nat)
    requires item.translations.Some? && FirstEnglish(item.translations.value, i)
    ensures Truthy(item.translations.value[i].value) ==> TvdbTitle(item) == item.translations.value[i].value.value
    ensures !Truthy(item.translations.value[i].value) ==> TvdbTitle(item) == item.title
  {
    EnglishTranslationFirst(item.translations.value, i);
  }

  /** Without translations, or without one keyed `eng`, the candidate's own title is shown. */
  lemma TvdbTitleNoEnglish(item: Candidate)
    requires item.translations.Some? ==>
      forall j :: 0 <= j < |item.translations.value| ==> item.translations.value[j].key != Some("eng")
    ensures TvdbTitle(item) == item.title
  {
    if item.translations.Some? {
      EnglishTranslationNone(item.translations.value);
    }
  }

  /** The entry after a match. */
  function MatchedEntry(entry: Entry, m: Match): Entry {
    entry.(status := Success, tvdbId := m.item.id, tvdbTitle := Some(TvdbTitle(m.item)),
           tvdbImage := m.item.image, season := ParseInt(m.season), message := Some(MatchedMessage(m)))
  }

  /** The entry after a failure with the given text. */
  function FailedEntry(entry: Entry, text: string): (e: Entry)
    ensures e.status == Failed && e.message == Some(text)
  {
    entry.(status := Failed, message := Some(text))
  }

  /** How `attemptAutoLink` leaves the entry it started from (the spread old
      entry with status `linking`), given how the search completes: the two
      pre-checks, then the search, the failure text after a miss, and the
      classified error of anything thrown. */
  function Outcome(entry: Entry, anime: Anime, found: Completion<Option<Match>>, services: Services): Entry {
    if !Truthy(anime.titleEn) && !Truthy(anime.titleJp) then FailedEntry(entry, NoTitleText)
    else if !Truthy(anime.startDate) then FailedEntry(entry, NoStartDateText)
    else
      match found
      case Throw(e) => FailedEntry(entry, FailureText(Classify(e)))
      case Normal(Some(m)) => MatchedEntry(entry, m)
      case Normal(None) =>
        match NoMatchMessage(anime, services)
        case Throw(e) => FailedEntry(entry, FailureText(Classify(e)))
        case Normal(text) => FailedEntry(entry, text)
  }

  /** How the search of an anime completes, by its id. */
  type Finder = string -> Completion<Option<Match>>

  /** `find` completes as the search of `findSameEntity` does with `services`. */
  ghost predicate Searches(find: Finder, services: Services) {
    forall id {:trigger Resolve(id, services)} :: find(id) == Resolve(id, services).result
  }

  /** There is such a finder for every set of services. */
  lemma SearchesExists(services: Services) returns (find: Finder)
    ensures Searches(find, services)
    ensures forall id :: find(id) == Resolve(id, services).result
  {
    find := id => Resolve(id, services).result;
  }

  /** The results after one `attemptAutoLink(anime)` whose search completes as `find` says. */
  function AttemptStep(results: map<string, Entry>, anime: Anime, find: Finder, services: Services): map<string, Entry> {
    results[anime.id := Outcome(Spread(results, anime.id).(status := Linking), anime, find(anime.id), services)]
  }

  /** An attempt whose search completed as `found` records `final`. */
  lemma SettleStep(results: map<string, Entry>, anime: Anime, find: Finder, services: Services, final: Entry)
    requires final == Outcome(Spread(results, anime.id).(status := Linking), anime, find(anime.id), services)
    ensures AttemptStep(results, anime, find, services) == results[anime.id := final]
  {
  }

  /** An anime without an English or Japanese title, or without a start date,
      fails without a search: the outcome is the same however the search would complete. */
  lemma PrecheckSkipsSearch(entry: Entry, anime: Anime, found: Completion<Option<Match>>,
                            other: Completion<Option<Match>>, services: Services)
    requires (!Truthy(anime.titleEn) && !Truthy(anime.titleJp)) || !Truthy(anime.startDate)
    ensures Outcome(entry, anime, found, services) == Outcome(entry, anime, other, services)
    ensures Outcome(entry, anime, found, services).status == Failed
    ensures Outcome(entry, anime, found, services).message
         == Some(if !Truthy(anime.titleEn) && !Truthy(anime.titleJp) then NoTitleText else NoStartDateText)
  {
  }

  /** An attempt ends in `success` exactly when the pre-checks pass and the
      search completes with a match, and in `failed` otherwise; the anime's id
      and title in the entry are kept. */
  lemma OutcomeStatus(entry: Entry, anime: Anime, found: Completion<Option<Match>>, services: Services)
    ensures var e := Outcome(entry, anime, found, services);
      && (e.status == Success || e.status == Failed)
      && e.animeId == entry.animeId && e.animeTitle == entry.animeTitle
      && (e.status == Success <==>
            (Truthy(anime.titleEn) || Truthy(anime.titleJp)) && Truthy(anime.startDate)
            && found.Normal? && found.value.Some?)
  {
  }

  /** With the search of `findSameEntity`: a success holds the id, image and
      season number of the first hit of the resolver's search order. */
  lemma AttemptOutcomeSpec(entry: Entry, anime: Anime, services: Services)
    ensures var e := Outcome(entry, anime, Resolve(anime.id, services).result, services);
      e.status == Success ==>
        exists w: nat, c: nat, key: nat ::
          var vs := CanonicalVariants(services.getAnimeById(anime.id).value);
          && w < |vs| && c < |ResultsOf(vs, w, services)|
          && e.tvdbId == ResultsOf(vs, w, services)[c].id
          && e.tvdbImage == ResultsOf(vs, w, services)[c].image
          && e.season == Some(key)
          && HitAt(ResultsOf(vs, w, services), c, key, StartDay(services.getAnimeById(anime.id).value, services),
                   SeasonsFn(services))
  {
    var found := Resolve(anime.id, services).result;
    var e := Outcome(entry, anime, found, services);
    OutcomeStatus(entry, anime, found, services);
    if e.status == Success {
      var w, c, key := ResolveFound(anime.id, services);
      ParseSeasonKey(key);
    }
  }

  // ---------------------------------------------------------------- batch

  /** The batch works on the items whose status (in the results as they were
      when it started) is neither `success` nor `already_linked`. */
  predicate NeedsLinking(results: map<string, Entry>, anime: Anime) {
    anime.id !in results || (results[anime.id].status != Success && results[anime.id].status != AlreadyLinked)
  }

  function PendingAnime(results: map<string, Entry>, animeList: seq<Anime>): (r: seq<Anime>)
    ensures |r| <= |animeList|
    ensures forall a | a in r :: a in animeList && NeedsLinking(results, a)
    ensures forall a | a in animeList && NeedsLinking(results, a) :: a in r
    decreases |animeList|
  {
    if animeList == [] then []
    else
      var rest := PendingAnime(results, animeList[..|animeList| - 1]);
      var a := animeList[|animeList| - 1];
      assert forall x | x in animeList[..|animeList| - 1] :: x in animeList;
      if NeedsLinking(results, a) then rest + [a] else rest
  }

  /** The results after attempting each of `items` in order. */
  function AttemptAll(results: map<string, Entry>, items: seq<Anime>, find: Finder, services: Services): map<string, Entry>
    decreases |items|
  {
    if items == [] then results
    else AttemptStep(AttemptAll(results, items[..|items| - 1], find, services), items[|items| - 1], find, services)
  }

  /** After a run over `items`, each of them has an entry ending in `success`
      or `failed`. */
  lemma {:induction false} AttemptAllSpec(results: map<string, Entry>, items: seq<Anime>, find: Finder, services: Services, id: string)
    ensures (exists i :: 0 <= i < |items| && items[i].id == id) ==>
      id in AttemptAll(results, items, find, services)
      && AttemptAll(results, items, find, services)[id].status in {Success, Failed}
    decreases |items|
  {
    if items != [] {
      var n := |items| - 1;
      var init := items[..n];
      var last := items[n];
      if last.id == id {
        OutcomeStatus(Spread(AttemptAll(results, init, find, services), last.id).(status := Linking), last, find(last.id), services);
      } else if exists i :: 0 <= i < |items| && items[i].id == id {
        AttemptAllSpec(results, init, find, services, id);
        var i :| 0 <= i < |items| && items[i].id == id;
        assert init[i] == items[i];
      }
    }
  }

  /** A run over `items` leaves the entry of every id not among them as it was,
      present or absent. */
  lemma {:induction false} AttemptAllKeepsOthers(results: map<string, Entry>, items: seq<Anime>, find: Finder, services: Services, id: string)
    requires forall i | 0 <= i < |items| :: items[i].id != id
    ensures id in AttemptAll(results, items, find, services) <==> id in results
    ensures id in results ==> AttemptAll(results, items, find, services)[id] == results[id]
    decreases |items|
  {
    if items != [] {
      var n := |items| - 1;
      var init := items[..n];
      forall i | 0 <= i < n ensures init[i].id != id {
        assert init[i] == items[i];
      }
      AttemptAllKeepsOthers(results, init, find, services, id);
    }
  }

  /** Attempting one more item of a list extends the run over its prefix by one step. */
  lemma AttemptAllNext(results: map<string, Entry>, items: seq<Anime>, k: nat, find: Finder, services: Services)
    requires k < |items|
    ensures AttemptAll(results, items[..k + 1], find, services)
         == AttemptStep(AttemptAll(results, items[..k], find, services), items[k], find, services)
  {
    assert items[..k + 1][..k] == items[..k];
  }

  /** The batch's progress record. */
  datatype Progress = Progress(
    total: int,
    processed: int,
    remaining: int,
    successful: int,
    failed: int,
    skipped: int,
    startTime: int,
    currentAnime: string,
    processingTimes: seq<int>,
    lastProcessedTime: int)

  /** `[...times, t].slice(-5)`: the last five elements. */
  function LastFive(xs: seq<int>): (r: seq<int>)
    ensures |r| == if |xs| <= 5 then |xs| else 5
  {
    if |xs| <= 5 then xs else xs[|xs| - 5..]
  }

  /** The number of entries with the given status (`Object.values(..).filter(..).length`). */
  function CountStatus(results: map<string, Entry>, s: Status): nat {
    |set id | id in results && results[id].status == s|
  }

  /** The progress update after an item: the time since the previous item
      joins the window when it is positive (the `processed > 0` guard always
      holds here, since the counter is incremented first), and the counts are
      recomputed. */
  function Record(prev: Progress, processed: int, pendingCount: int, now: int, successful: nat, failed: nat): Progress {
    var processingTime := if processed > 0 then now - prev.lastProcessedTime else 0;
    var times := if processingTime > 0 then LastFive(prev.processingTimes + [processingTime]) else prev.processingTimes;
    prev.(processed := processed, remaining := pendingCount - processed,
          successful := successful, failed := failed,
          processingTimes := times, lastProcessedTime := now)
  }

  /** The latency window holds at most five positive durations. */
  ghost predicate WindowOk(p: Progress) {
    |p.processingTimes| <= 5 && forall i | 0 <= i < |p.processingTimes| :: p.processingTimes[i] > 0
  }

  /** Pushing a positive duration keeps the window well formed; the new
      duration is the most recent one and older ones move up. */
  lemma WindowPush(times: seq<int>, t: int)
    requires |times| <= 5 && forall i | 0 <= i < |times| :: times[i] > 0
    requires t > 0
    ensures var r := LastFive(times + [t]);
      && |r| <= 5 && (forall i | 0 <= i < |r| :: r[i] > 0)
      && r[|r| - 1] == t && r[..|r| - 1] == times[|times| + 1 - |r|..]
  {
    var xs := times + [t];
    var r := LastFive(xs);
    assert r[..|r| - 1] == times[|times| + 1 - |r|..];
    forall i | 0 <= i < |r| ensures r[i] > 0 {
      assert r[i] == xs[|xs| - |r| + i];
    }
  }

  /** An update keeps the window well formed, keeps `processed + remaining ==
      total`, and a positive duration becomes the window's most recent one. */
  lemma RecordSpec(prev: Progress, processed: int, now: int, successful: nat, failed: nat)
    requires WindowOk(prev) && processed > 0
    ensures WindowOk(Record(prev, processed, prev.total, now, successful, failed))
    ensures Record(prev, processed, prev.total, now, successful, failed).processed
          + Record(prev, processed, prev.total, now, successful, failed).remaining == prev.total
    ensures Record(prev, processed, prev.total, now, successful, failed).total == prev.total
    ensures Record(prev, processed, prev.total, now, successful, failed).startTime == prev.startTime
    ensures Record(prev, processed, prev.total, now, successful, failed).lastProcessedTime == now
    ensures Record(prev, processed, prev.total, now, successful, failed).processingTimes
         == if now - prev.lastProcessedTime > 0 then LastFive(prev.processingTimes + [now - prev.lastProcessedTime])
            else prev.processingTimes
  {
    var r := Record(prev, processed, prev.total, now, successful, failed);
    if now - prev.lastProcessedTime > 0 {
      WindowPush(prev.processingTimes, now - prev.lastProcessedTime);
      assert r.processingTimes == LastFive(prev.processingTimes + [now - prev.lastProcessedTime]);
    } else {
      assert r.processingTimes == prev.processingTimes;
    }
  }

  /** The initial progress record of a batch over `pending`. */
  function StartProgress(pending: seq<Anime>, startTime: int): (p: Progress)
    ensures p.processed + p.remaining == p.total && WindowOk(p)
  {
    Progress(|pending|, 0, |pending|, 0, 0, 0, startTime,
      if pending == [] then "Unknown" else DisplayTitle(pending[0]), [], startTime)
  }

  // ---------------------------------------------------------------- save

  /** `result.tvdbId && result.season`: both truthy, so season 0 is never saved. */
  predicate CanSave(e: Entry) {
    Truthy(e.tvdbId) && e.season.Some? && e.season.value != 0
  }

  /** The arguments of `mutateSaveLink`. */
  datatype SaveRequest = SaveRequest(animeId: string, tvdbId: string, season: int, animeTitle: Option<string>)

  function RequestFor(id: string, e: Entry): (r: SaveRequest)
    requires CanSave(e)
    ensures r.tvdbId != "" && r.season != 0
  {
    SaveRequest(id, e.tvdbId.value, e.season.value, e.animeTitle)
  }

  /** The message stored after a save. */
  function SaveText(outcome: Completion<()>): string {
    match outcome
    case Normal(_) => "Link saved successfully!"
    case Throw(m) => "Save failed: " + m
  }

  /** The ids that `saveAllSuccesses` saves: successes that pass the guard. */
  function Saveable(results: map<string, Entry>): (ids: set<string>)
    ensures forall id | id in ids :: id in results && results[id].status == Success && CanSave(results[id])
    ensures forall id | id in results && results[id].status == Success && CanSave(results[id]) :: id in ids
  {
    set id | id in results && results[id].status == Success && CanSave(results[id])
  }

  /** The results once each id of `done` has had its save outcome recorded. */
  function AfterSaves(results: map<string, Entry>, done: set<string>, save: SaveRequest -> Completion<()>): map<string, Entry>
    requires forall id | id in done :: id in results && CanSave(results[id])
  {
    map id | id in results ::
      if id in done then results[id].(message := Some(SaveText(save(RequestFor(id, results[id]))))) else results[id]
  }

  /** The ids of `done` whose save succeeded. */
  function SavedIds(results: map<string, Entry>, done: set<string>, save: SaveRequest -> Completion<()>): (s: set<string>)
    requires forall id | id in done :: id in results && CanSave(results[id])
    ensures s <= done
  {
    set id | id in done && save(RequestFor(id, results[id])).Normal?
  }

  /** The alert shown at the end. */
  function SaveSummary(saved: nat, failed: nat): string {
    if failed > 0 then "Saved " + NatToString(saved) + " links successfully, " + NatToString(failed) + " failed"
    else "Successfully saved all " + NatToString(saved) + " links!"
  }

  /** Recording one more save: the map gains that entry's message, and the
      counts of saves done and of successful saves grow accordingly. */
  lemma AfterSavesStep(results: map<string, Entry>, done: set<string>, id: string, save: SaveRequest -> Completion<()>)
    requires forall x | x in done :: x in results && CanSave(results[x])
    requires id in results && CanSave(results[id]) && id !in done
    ensures AfterSaves(results, done + {id}, save)
         == AfterSaves(results, done, save)[id := results[id].(message := Some(SaveText(save(RequestFor(id, results[id])))))]
    ensures |SavedIds(results, done + {id}, save)|
         == |SavedIds(results, done, save)| + (if save(RequestFor(id, results[id])).Normal? then 1 else 0)
    ensures |done + {id}| == |done| + 1
  {
    var s := SavedIds(results, done, save);
    if save(RequestFor(id, results[id])).Normal? {
      assert SavedIds(results, done + {id}, save) == s + {id};
    } else {
      assert SavedIds(results, done + {id}, save) == s;
    }
  }

  /** Saving never changes a status, and only touches the entries it saves. */
  lemma AfterSavesKeepsStatus(results: map<string, Entry>, done: set<string>, save: SaveRequest -> Completion<()>, id: string)
    requires forall x | x in done :: x in results && CanSave(results[x])
    ensures id in AfterSaves(results, done, save) <==> id in results
    ensures id in results ==> AfterSaves(results, done, save)[id].status == results[id].status
    ensures id in results && id !in done ==> AfterSaves(results, done, save)[id] == results[id]
  {
  }

  /** The loop of `saveAllSuccesses`: one `saveLink` per saveable id, in some
      order; since each save only touches its own entry, the order does not
      change the end state. */
  method SaveEach(results: map<string, Entry>, save: SaveRequest -> Completion<()>)
    returns (updated: map<string, Entry>, saved: nat, failed: nat)
    ensures updated == AfterSaves(results, Saveable(results), save)
    ensures saved == |SavedIds(results, Saveable(results), save)|
    ensures saved + failed == |Saveable(results)|
  {
    var todo := Saveable(results);
    ghost var all := todo;
    updated := results;
    saved, failed := 0, 0;
    assert all - todo == {};
    assert AfterSaves(results, {}, save) == results;
    while todo != {}
      invariant todo <= all
      invariant updated == AfterSaves(results, all - todo, save)
      invariant saved == |SavedIds(results, all - todo, save)| && saved + failed == |all - todo|
      decreases |todo|
    {
      var id :| id in todo;
      var entry := updated[id];
      var outcome := save(RequestFor(id, entry));
      SaveEachStep(results, all, todo, id, save);
      updated := updated[id := entry.(message := Some(SaveText(outcome)))];
      if outcome.Normal? {
        saved := saved + 1;
      } else {
        failed := failed + 1;
      }
      todo := todo - {id};
    }
    assert all - todo == all;
  }

  /** One step of `SaveEach`: moving `id` from the ids still to save to the
      ones saved. */
  lemma SaveEachStep(results: map<string, Entry>, all: set<string>, todo: set<string>, id: string,
                     save: SaveRequest -> Completion<()>)
    requires all == Saveable(results) && todo <= all && id in todo
    ensures id in results && CanSave(results[id])
    ensures AfterSaves(results, all - todo, save)[id] == results[id]
    ensures AfterSaves(results, all - (todo - {id}), save)
         == AfterSaves(results, all - todo, save)[id := results[id].(message := Some(SaveText(save(RequestFor(id, results[id])))))]
    ensures |SavedIds(results, all - (todo - {id}), save)|
         == |SavedIds(results, all - todo, save)| + (if save(RequestFor(id, results[id])).Normal? then 1 else 0)
    ensures |all - (todo - {id})| == |all - todo| + 1
  {
    var done := all - todo;
    assert all - (todo - {id}) == done + {id};
    AfterSavesKeepsStatus(results, done, save, id);
    AfterSavesStep(results, done, id, save);
  }

  /** The body of `attemptAutoLink` after the entry is marked `linking`:
      the two pre-checks, the search, and the failure text of a miss or of an
      error. */
  method Attempt(entry: Entry, anime: Anime, services: Services, ghost find: Finder) returns (final: Entry)
    requires Searches(find, services)
    ensures final == Outcome(entry, anime, find(anime.id), services)
  {
    if !Truthy(anime.titleEn) && !Truthy(anime.titleJp) {
      return FailedEntry(entry, NoTitleText);
    }
    if !Truthy(anime.startDate) {
      return FailedEntry(entry, NoStartDateText);
    }
    var found;
    ghost var calls;
    found, calls := FindSameEntity(anime.id, services);
    assert found == find(anime.id);
    match found {
      case Throw(e) =>
        final := FailedEntry(entry, FailureText(Classify(e)));
      case Normal(Some(m)) =>
        final := MatchedEntry(entry, m);
      case Normal(None) =>
        var text := NoMatchMessage(anime, services);
        match text {
          case Throw(e) =>
            final := FailedEntry(entry, FailureText(Classify(e)));
          case Normal(t) =>
            final := FailedEntry(entry, t);
        }
    }
  }

  // ---------------------------------------------------------------- page

  /** The page's state: the results map, the batch's progress record, the
      item being processed and the batch flag. */
  class LinkingPage {
    var results: map<string, Entry>
    var progress: Option<Progress>
    var currentProcessingId: Option<string>
    var isAutoLinkingAll: bool

    constructor ()
      ensures results == map[] && progress == None && currentProcessingId == None && !isAutoLinkingAll
    {
      results := map[];
      progress := None;
      currentProcessingId := None;
      isAutoLinkingAll := false;
    }

    /** The initialisation effect, once both the season's anime and the saved
        links are loaded (a `null` list of saved links counts as empty). */
    method InitResults(animeList: seq<Anime>, savedLinks: Option<seq<SavedLink>>)
      modifies this
      ensures results == Initialised(old(results), animeList, if savedLinks.Some? then savedLinks.value else [])
      ensures progress == old(progress) && currentProcessingId == old(currentProcessingId)
      ensures isAutoLinkingAll == old(isAutoLinkingAll)
    {
      var links := if savedLinks.Some? then savedLinks.value else [];
      var initial: map<string, Entry> := map[];
      for i := 0 to |animeList|
        invariant initial == InitialResults(results, animeList[..i], links)
      {
        var anime := animeList[i];
        assert animeList[..i + 1][..i] == animeList[..i];
        if anime.id !in results {
          initial := initial[anime.id := InitialEntry(anime, links)];
        }
      }
      assert animeList[..|animeList|] == animeList;
      results := results + initial;
    }

    /** `attemptAutoLink(anime)`: the entry is marked `linking` and the item
        current while the attempt runs, then the outcome is recorded. */
    method AttemptAutoLink(anime: Anime, services: Services, ghost find: Finder)
      requires Searches(find, services)
      modifies this
      ensures results == AttemptStep(old(results), anime, find, services)
      ensures currentProcessingId == None
      ensures progress == old(progress) && isAutoLinkingAll == old(isAutoLinkingAll)
    {
      var before := results;
      var entry := Spread(before, anime.id).(status := Linking);
      currentProcessingId := Some(anime.id);
      results := before[anime.id := entry];
      var final := Attempt(entry, anime, services, find);
      SettleStep(before, anime, find, services, final);
      assert before[anime.id := entry][anime.id := final] == before[anime.id := final];
      results := before[anime.id := final];
      currentProcessingId := None;
    }

    /** One item of the batch: show it as current, attempt it, then record
        the progress with the time `now` read after the attempt. */
    method LinkNext(anime: Anime, services: Services, ghost find: Finder, processed: nat, now: int)
      requires Searches(find, services)
      requires progress.Some? && WindowOk(progress.value)
      requires progress.value.processed == processed
      requires progress.value.processed + progress.value.remaining == progress.value.total
      modifies this
      ensures results == AttemptStep(old(results), anime, find, services)
      ensures progress == Some(Record(old(progress.value).(currentAnime := DisplayTitle(anime)), processed + 1,
                                      old(progress.value).total, now,
                                      CountStatus(results, Success), CountStatus(results, Failed)))
      ensures WindowOk(progress.value) && progress.value.total == old(progress.value).total
      ensures progress.value.processed == processed + 1
      ensures progress.value.processed + progress.value.remaining == progress.value.total
      ensures currentProcessingId == None && isAutoLinkingAll == old(isAutoLinkingAll)
    {
      var shown := progress.value.(currentAnime := DisplayTitle(anime));
      assert shown.processed == processed && shown.processed + shown.remaining == shown.total;
      progress := Some(shown);
      AttemptAutoLink(anime, services, find);
      var successful := CountStatus(results, Success);
      var failed := CountStatus(results, Failed);
      RecordSpec(shown, processed + 1, now, successful, failed);
      progress := Some(Record(shown, processed + 1, shown.total, now, successful, failed));
    }

    /** `autoLinkAll()`. The stop flag, once set, stays set until the batch
        ends, so a run is described by `stopAt`, the number of items attempted
        before the flag is first seen set (any value from the number of
        pending items on means it never is). `clock(0)` is the start time and
        `clock(i + 1)` the time read after item `i`. `count` is the number of
        items attempted, whose searches complete as `find` says. */
    method AutoLinkAll(animeList: seq<Anime>, services: Services, ghost find: Finder,
                       stopAt: nat, clock: nat -> int)
      returns (count: nat)
      requires Searches(find, services)
      modifies this
      ensures count == if stopAt < |PendingAnime(old(results), animeList)| then stopAt else |PendingAnime(old(results), animeList)|
      ensures results == AttemptAll(old(results), PendingAnime(old(results), animeList)[..count], find, services)
      ensures progress == None && !isAutoLinkingAll
      ensures currentProcessingId == if count == 0 then old(currentProcessingId) else None
    {
      isAutoLinkingAll := true;
      var pending := PendingAnime(results, animeList);
      ghost var start := results;
      progress := Some(StartProgress(pending, clock(0)));
      count := 0;
      while count < |pending|
        invariant count <= |pending| && count <= stopAt
        invariant results == AttemptAll(start, pending[..count], find, services)
        invariant progress.Some? && progress.value.total == |pending| && WindowOk(progress.value)
        invariant progress.value.processed == count
        invariant progress.value.processed + progress.value.remaining == progress.value.total
        invariant isAutoLinkingAll
        invariant currentProcessingId == if count == 0 then old(currentProcessingId) else None
        decreases |pending| - count
      {
        if count == stopAt {
          break;
        }
        AttemptAllNext(start, pending, count, find, services);
        LinkNext(pending[count], services, find, count, clock(count + 1));
        count := count + 1;
      }
      isAutoLinkingAll := false;
      progress := None;
    }

    /** `saveLink(animeId)`: nothing happens unless there is an entry with a
        truthy TheTVDB id and season; `request` is the save that was sent. */
    method SaveLink(animeId: string, save: SaveRequest -> Completion<()>) returns (request: Option<SaveRequest>)
      modifies this
      ensures request.None? <==> animeId !in old(results) || !CanSave(old(results)[animeId])
      ensures request.None? ==> results == old(results)
      ensures request.Some? ==>
        && request.value == RequestFor(animeId, old(results)[animeId])
        && request.value.tvdbId != "" && request.value.season != 0
        && results == old(results)[animeId := old(results)[animeId].(message := Some(SaveText(save(request.value))))]
      ensures progress == old(progress) && currentProcessingId == old(currentProcessingId)
      ensures isAutoLinkingAll == old(isAutoLinkingAll)
    {
      if animeId !in results || !CanSave(results[animeId]) {
        return None;
      }
      var entry := results[animeId];
      var req := RequestFor(animeId, entry);
      var outcome := save(req);
      results := results[animeId := entry.(message := Some(SaveText(outcome)))];
      return Some(req);
    }

    /** `saveAllSuccesses()`: save every success that passes the guard and
        count the outcomes; `summary` is the alert, absent when there is no
        success at all. */
    method SaveAllSuccesses(save: SaveRequest -> Completion<()>) returns (summary: Option<string>, saved: nat, failed: nat)
      modifies this
      ensures results == AfterSaves(old(results), Saveable(old(results)), save)
      ensures saved == |SavedIds(old(results), Saveable(old(results)), save)|
      ensures saved + failed == |Saveable(old(results))|
      ensures summary.None? <==> CountStatus(old(results), Success) == 0
      ensures summary.Some? ==> summary.value == SaveSummary(saved, failed)
      ensures progress == old(progress) && currentProcessingId == old(currentProcessingId)
      ensures isAutoLinkingAll == old(isAutoLinkingAll)
    {
      if CountStatus(results, Success) == 0 {
        assert Saveable(results) == {};
        assert AfterSaves(results, {}, save) == results;
        return None, 0, 0;
      }
      var updated;
      updated, saved, failed := SaveEach(results, save);
      results := updated;
      summary := Some(SaveSummary(saved, failed));
    }
  }
}
