/** The records the linking code reads from the two catalogs, and the
    external services it calls, as plain values and functions. */
module Catalog {
  import opened JsBase
  import opened Dates

  /** An internal anime record (the fields of the `anime` query that the linking code reads). */
  datatype Anime = Anime(
    id: string,
    titleEn: Option<string>,
    titleJp: Option<string>,
    titleRomaji: Option<string>,
    startDate: Option<string>)

  /** One `{key, value}` translation of a TheTVDB title; a `null` entry has neither. */
  datatype Translation = Translation(key: Option<string>, value: Option<string>)

  /** One hit of a TheTVDB search. A `null` entry of the result array behaves
      like a hit without an id and is modelled as one. */
  datatype Candidate = Candidate(
    id: Option<string>,
    title: string,
    image: Option<string>,
    translations: Option<seq<Translation>>)

  /** One TheTVDB episode: its season number and its air date as text. */
  datatype Episode = Episode(seasonNumber: nat, airDate: Option<string>)

  /** A saved anime-to-TheTVDB link. */
  datatype SavedLink = SavedLink(id: string, animeID: string, thetvdbID: string, name: string, season: int)

  /** An external call, as recorded in the order it is issued. */
  datatype Call = GetAnime(animeId: string) | Search(query: string) | GetEpisodes(tvdbId: string)

  /** The services that the resolver and the batch driver call. Each network
      query is the function from its argument to how the awaited call
      completes; the date parsers stand for date-fns `parse(text,
      'yyyy-MM-dd', new Date())`, date-fns `parseISO(text)` and `new Date(text)`. */
  datatype Services = Services(
    getAnimeById: string -> Completion<Anime>,
    searchTheTvdb: string -> Completion<Option<seq<Candidate>>>,
    getEpisodes: string -> Completion<Option<seq<Episode>>>,
    parseYmd: string -> Date,
    parseIso: string -> Date,
    newDate: string -> Date)

  /** `item?.id` is truthy. */
  predicate HasId(c: Candidate) {
    Truthy(c.id)
  }

  /** The day the resolver compares seasons against: `parseISO(anime.startDate)`;
      a missing start date gives an invalid date. */
  function StartDay(anime: Anime, services: Services): Date {
    if anime.startDate.Some? then services.parseIso(anime.startDate.value) else Invalid
  }
}
