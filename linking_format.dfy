/** The pure helpers of the seasonal-linking page: the current season, the
    season dropdown, the elapsed-time and ETA read-outs, and the texts the
    linking code shows for a match, a miss and an error. */
module LinkingFormat {
  import opened JsBase
  import opened JsStrings
  import opened Dates
  import opened Catalog
  import opened TitleVariants
  import opened EntityResolver

  datatype Season = Winter | Spring | Summer | Fall

  function SeasonName(s: Season): string {
    match s
    case Winter => "WINTER"
    case Spring => "SPRING"
    case Summer => "SUMMER"
    case Fall => "FALL"
  }

  /** The order of the `seasons` array of the dropdown. */
  const SeasonOrder: seq<Season> := [Winter, Spring, Summer, Fall]

  /** The season of a `getMonth()` value (0 for January): months up to 2 are
      winter, up to 5 spring, up to 8 summer, the rest fall. */
  function CurrentSeason(month: int): Season {
    if month <= 2 then Winter else if month <= 5 then Spring else if month <= 8 then Summer else Fall
  }

  /** Each quarter of the year is one season, in dropdown order. */
  lemma CurrentSeasonByQuarter(month: int)
    requires 0 <= month < 12
    ensures month / 3 < 4 && CurrentSeason(month) == SeasonOrder[month / 3]
  {
  }

  /** The text `${season}_${year}` of one dropdown entry. */
  function OptionText(s: Season, year: int): string {
    SeasonName(s) + "_" + IntToString(year)
  }

  /** The initially selected season: the current season of the current year. */
  function DefaultSelection(month: int, currentYear: int): string {
    OptionText(CurrentSeason(month), currentYear)
  }

  /** The year of dropdown entry `i`: four entries per year, from `currentYear + 1` down. */
  function OptionYear(currentYear: int, i: nat): int {
    currentYear + 1 - i / 4
  }

  /** Dropdown entry `i`. */
  function SeasonOption(currentYear: int, i: nat): string {
    OptionText(SeasonOrder[i % 4], OptionYear(currentYear, i))
  }

  /** The first `k` dropdown entries. */
  function OptionsUpTo(currentYear: int, k: nat): (r: seq<string>)
    ensures |r| == k
  {
    seq(k, i requires 0 <= i => SeasonOption(currentYear, i))
  }

  /** How many entries the loop emits before it stops: four per year from
      `currentYear + 1` down to 2000, cut off at 50. */
  function OptionCount(currentYear: int): nat {
    if currentYear + 1 < 2000 then 0
    else if 4 * (currentYear + 2 - 2000) < 50 then 4 * (currentYear + 2 - 2000)
    else 50
  }

  /** What `generateSeasonOptions()` returns. */
  function SeasonOptions(currentYear: int): seq<string> {
    OptionsUpTo(currentYear, OptionCount(currentYear))
  }

  lemma QuarterIndex(q: nat, s: nat)
    requires s < 4
    ensures (4 * q + s) % 4 == s && (4 * q + s) / 4 == q
  {
  }

  /** Appending entry `k`, the entry for season `s` of `year`. */
  lemma OptionsStep(currentYear: int, k: nat, year: int, s: nat)
    requires s < 4 && year <= currentYear + 1 && k == 4 * (currentYear + 1 - year) + s
    ensures OptionsUpTo(currentYear, k + 1) == OptionsUpTo(currentYear, k) + [OptionText(SeasonOrder[s], year)]
  {
    QuarterIndex(currentYear + 1 - year, s);
    assert OptionsUpTo(currentYear, k + 1)[..k] == OptionsUpTo(currentYear, k);
  }

  /** `generateSeasonOptions`: push `${season}_${year}` for every season of
      every year from `currentYear + 1` down to 2000, returning as soon as 50
      entries are there. */
  method GenerateSeasonOptions(currentYear: int) returns (options: seq<string>)
    ensures options == SeasonOptions(currentYear)
  {
    options := [];
    var year := currentYear + 1;
    while year >= 2000
      invariant year <= currentYear + 1
      invariant year < currentYear + 1 ==> year >= 1999
      invariant |options| == 4 * (currentYear + 1 - year) < 50
      invariant options == OptionsUpTo(currentYear, |options|)
      decreases year
    {
      for s := 0 to 4
        invariant |options| == 4 * (currentYear + 1 - year) + s < 50
        invariant options == OptionsUpTo(currentYear, |options|)
      {
        OptionsStep(currentYear, |options|, year, s);
        options := options + [OptionText(SeasonOrder[s], year)];
        if |options| >= 50 {
          return;
        }
      }
      year := year - 1;
    }
  }

  /** The dropdown has at most 50 entries; entry `i` is for the year
      `currentYear + 1 - i / 4`, never below 2000, and within a year the
      seasons come as WINTER, SPRING, SUMMER, FALL. */
  lemma SeasonOptionsShape(currentYear: int, i: nat)
    requires i < |SeasonOptions(currentYear)|
    ensures |SeasonOptions(currentYear)| <= 50
    ensures SeasonOptions(currentYear)[i] == OptionText(SeasonOrder[i % 4], OptionYear(currentYear, i))
    ensures 2000 <= OptionYear(currentYear, i) <= currentYear + 1
  {
  }

  /** Years never increase along the dropdown, and entries of one year follow the season order. */
  lemma SeasonOptionsOrder(currentYear: int, i: nat, j: nat)
    requires i < j
    ensures OptionYear(currentYear, i) >= OptionYear(currentYear, j)
    ensures OptionYear(currentYear, i) == OptionYear(currentYear, j) ==> i % 4 < j % 4
  {
  }

  /** From the year 2000 on, the initially selected season is one of the dropdown's entries. */
  lemma DefaultSelectionOffered(month: int, currentYear: int)
    requires 0 <= month < 12 && currentYear >= 2000
    ensures DefaultSelection(month, currentYear) in SeasonOptions(currentYear)
  {
    var i := 4 + month / 3;
    CurrentSeasonByQuarter(month);
    QuarterIndex(1, month / 3);
    assert SeasonOptions(currentYear)[i] == DefaultSelection(month, currentYear);
  }

  /** `${m}:${s.toString().padStart(2, '0')}` for whole minutes and seconds. */
  function Clock(minutes: nat, seconds: nat): string {
    NatToString(minutes) + ":" + PadStart(NatToString(seconds), 2, '0')
  }

  /** A clock text splits at its third-last character, and both halves read back. */
  lemma ClockReadsBack(minutes: nat, seconds: nat)
    requires seconds < 60
    ensures var c := Clock(minutes, seconds);
      && |c| >= 4 && c[|c| - 3] == ':'
      && AllDigits(c[..|c| - 3]) && ParseDecimal(c[..|c| - 3]) == minutes
      && AllDigits(c[|c| - 2..]) && ParseDecimal(c[|c| - 2..]) == seconds
  {
    var m := NatToString(minutes);
    var p := PadStart(NatToString(seconds), 2, '0');
    var c := Clock(minutes, seconds);
    assert |p| == 2;
    assert c[..|c| - 3] == m;
    assert c[|c| - 2..] == p;
    ParseNatToString(minutes);
    PaddedNumberReadsBack(seconds, 2);
  }

  /** JavaScript's `%`: the remainder takes the sign of the dividend. */
  function JsRem(a: int, b: int): (r: int)
    requires b > 0
    ensures -b < r < b
    ensures a >= 0 ==> r == a % b
    ensures a < 0 ==> r <= 0
  {
    if a >= 0 then a % b else -((-a) % b)
  }

  /** The elapsed read-out: `Math.floor` of the milliseconds over 1000 (Dafny's
      `/` by a positive divisor is the floor), whole minutes by `Math.floor`,
      the rest by `%`, and the seconds padded to two characters. */
  function FormatElapsed(elapsedMs: int): string {
    var elapsedSeconds := elapsedMs / 1000;
    var minutes := elapsedSeconds / 60;
    var seconds := JsRem(elapsedSeconds, 60);
    IntToString(minutes) + ":" + PadStart(IntToString(seconds), 2, '0')
  }

  /** From the start time on, the read-out is a clock of the whole seconds elapsed. */
  lemma ElapsedIsClock(elapsedMs: int)
    requires elapsedMs >= 0
    ensures var total := elapsedMs / 1000;
      FormatElapsed(elapsedMs) == Clock(total / 60, total % 60) && (total / 60) * 60 + total % 60 == total
  {
  }

  /** A clock earlier than the start time shows negative minutes. */
  lemma ElapsedBeforeStart(elapsedMs: int)
    requires elapsedMs < 0
    ensures FormatElapsed(elapsedMs)[0] == '-'
  {
  }

  /** `Math.round(p / q)` for a positive `q`: the floor of `p / q + 1/2`. */
  function RoundDiv(p: int, q: int): int
    requires q > 0
  {
    (2 * p + q) / (2 * q)
  }

  /** `RoundDiv` is the integer nearest to `p / q`, halves rounded up. */
  lemma RoundDivNearest(p: int, q: int)
    requires q > 0
    ensures q * (2 * RoundDiv(p, q) - 1) <= 2 * p < q * (2 * RoundDiv(p, q) + 1)
  {
    var r := RoundDiv(p, q);
    var n := 2 * p + q;
    assert n == 2 * q * r + n % (2 * q);
    assert 0 <= n % (2 * q) < 2 * q;
  }

  function Sum(xs: seq<int>): int {
    if xs == [] then 0 else Sum(xs[..|xs| - 1]) + xs[|xs| - 1]
  }

  /** `Math.round(remaining * average / 1000)` with the average of the window
      taken exactly. */
  function EtaSeconds(remaining: int, times: seq<int>): int
    requires |times| > 0
  {
    RoundDiv(remaining * Sum(times), |times| * 1000)
  }

  /** The ETA read-out: the first matching case of the source's chain. */
  function FormatEta(processed: int, remaining: int, times: seq<int>): string {
    if processed < 2 then "ETA: Calculating..."
    else if remaining <= 0 then "ETA: 0:00"
    else if |times| == 0 then "ETA: --:--"
    else
      var eta := EtaSeconds(remaining, times);
      if eta <= 0 then "ETA: 0:00"
      else if eta > 7200 then "ETA: >2hrs"
      else "ETA: " + Clock(eta / 60, eta % 60)
  }

  /** When an estimate of at most two hours is shown, it is a clock of the
      rounded estimate, with at most 120 minutes. */
  lemma EtaIsClock(processed: int, remaining: int, times: seq<int>)
    requires processed >= 2 && remaining > 0 && |times| > 0
    requires 0 < EtaSeconds(remaining, times) <= 7200
    ensures var eta := EtaSeconds(remaining, times);
      && FormatEta(processed, remaining, times) == "ETA: " + Clock(eta / 60, eta % 60)
      && eta / 60 <= 120 && (eta / 60) * 60 + eta % 60 == eta
  {
  }

  /** The estimate is the whole number of seconds nearest to the remaining
      count times the window's average, in milliseconds, over 1000. */
  lemma EtaIsNearest(remaining: int, times: seq<int>)
    requires |times| > 0
    ensures var eta := EtaSeconds(remaining, times);
      |times| * 1000 * (2 * eta - 1) <= 2 * (remaining * Sum(times)) < |times| * 1000 * (2 * eta + 1)
  {
    RoundDivNearest(remaining * Sum(times), |times| * 1000);
  }

  /** The read-out never offers an estimate before two items are done, nor
      once nothing remains. */
  lemma EtaNeedsProgress(processed: int, remaining: int, times: seq<int>)
    ensures processed < 2 ==> FormatEta(processed, remaining, times) == "ETA: Calculating..."
    ensures processed >= 2 && remaining <= 0 ==> FormatEta(processed, remaining, times) == "ETA: 0:00"
  {
  }

  /** How a thrown error is reported. */
  datatype Failure = Network | Timeout | NotFound | Unauthorized | Other(message: string)

  /** The classification of an error message: the first test to pass in the
      order network/fetch, timeout, 404, 401/403. */
  function Classify(message: string): Failure {
    if Includes(message, "network") || Includes(message, "fetch") then Network
    else if Includes(message, "timeout") then Timeout
    else if Includes(message, "404") then NotFound
    else if Includes(message, "401") || Includes(message, "403") then Unauthorized
    else Other(message)
  }

  /** The text stored for each kind of failure. */
  function FailureText(f: Failure): string {
    match f
    case Network => "Failed: Network error - unable to connect to TVDB API"
    case Timeout => "Failed: Request timeout - TVDB API took too long to respond"
    case NotFound => "Failed: Anime not found in database"
    case Unauthorized => "Failed: API authentication error"
    case Other(message) => "Error: " + message
  }

  /** Each kind is chosen exactly when its test is the first to pass, and an
      error that passes none keeps its own message. */
  lemma ClassifyCases(message: string)
    ensures Classify(message) == Network <==> Includes(message, "network") || Includes(message, "fetch")
    ensures Classify(message) == Timeout
      <==> !Includes(message, "network") && !Includes(message, "fetch") && Includes(message, "timeout")
    ensures Classify(message) == NotFound
      <==> !Includes(message, "network") && !Includes(message, "fetch") && !Includes(message, "timeout")
           && Includes(message, "404")
    ensures Classify(message) == Unauthorized
      <==> !Includes(message, "network") && !Includes(message, "fetch") && !Includes(message, "timeout")
           && !Includes(message, "404") && (Includes(message, "401") || Includes(message, "403"))
    ensures Classify(message).Other? <==> Classify(message) == Other(message)
    ensures Classify(message).Other?
      <==> !Includes(message, "network") && !Includes(message, "fetch") && !Includes(message, "timeout")
           && !Includes(message, "404") && !Includes(message, "401") && !Includes(message, "403")
  {
  }

  /** The text of the title used for the failure message: `titleEn || titleJp || 'Unknown'`. */
  function DisplayTitle(anime: Anime): string {
    OrElse(anime.titleEn, OrElse(anime.titleJp, "Unknown"))
  }

  /** The success text for a match: the ` via …` part is there when the label
      is not empty (which every variant label is, `TitleVariants.LabelNonEmpty`),
      and the ` (searched: "…")` part when the query is not empty. */
  function MatchedMessage(m: Match): string {
    "\U{2705} Matched: " + m.item.title + " - Season " + m.season
      + (if m.searchMethod != "" then " via " + m.searchMethod else "")
      + (if m.searchQuery != "" then " (searched: \"" + m.searchQuery + "\")" else "")
  }

  /** The search hint inside the failure text. */
  function SearchHint(title: string): string {
    var query := CleanTitle(title);
    if query != title then "Search query: \"" + query + "\" (cleaned from \"" + title + "\")"
    else "Search query: \"" + query + "\""
  }

  /** The failure text after a search without a match. It formats
      `new Date(startDate)`, which throws on an invalid date. */
  function NoMatchMessage(anime: Anime, services: Services): (r: Completion<string>)
    ensures r.Throw? <==> Truthy(anime.startDate) && services.newDate(anime.startDate.value) == Invalid
  {
    var expected :=
      if Truthy(anime.startDate) then FormatYmd(services.newDate(anime.startDate.value)) else Normal("Unknown");
    match expected
    case Throw(e) => Throw(e)
    case Normal(day) =>
      Normal("Failed: No TVDB match found. " + SearchHint(DisplayTitle(anime)) + ". Expected air date: " + day)
  }
}
