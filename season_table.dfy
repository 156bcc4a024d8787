/** `getSeasonsAndStartDates`: the per-season air-date intervals of a TheTVDB
    series, folded from its episode list. */
module SeasonTable {
  import opened JsBase
  import opened Dates
  import opened Catalog

  /** The `{start, end}` record kept for one season. */
  datatype Interval = Interval(start: Date, end: Date)

  /** The table the fold builds. The source keys it by `seasonNumber.toString()`;
      distinct season numbers give distinct keys, so the number itself is the key here. */
  type Table = map<nat, Interval>

  /** The episode takes part in the fold: its `airDate` is truthy. The season
      key is never empty, so the `season &&` half of the guard always holds. */
  predicate Dated(e: Episode) {
    Truthy(e.airDate)
  }

  /** The parsed air date of a dated episode. */
  function AirDay(e: Episode, parseYmd: string -> Date): Date
    requires Dated(e)
  {
    parseYmd(e.airDate.value)
  }

  /** One step of the `reduce` callback. The first dated episode of a season
      seeds both ends; a later one replaces `start` only when it is `<` and
      `end` only when it is `>`, and `<`/`>` with an invalid date are false. */
  function Step(acc: Table, e: Episode, parseYmd: string -> Date): (r: Table)
    ensures r.Keys == if Dated(e) then acc.Keys + {e.seasonNumber} else acc.Keys
  {
    if !Dated(e) then acc
    else
      var d := AirDay(e, parseYmd);
      var s := e.seasonNumber;
      if s !in acc then acc[s := Interval(d, d)]
      else
        var iv := acc[s];
        var start := if Before(d, iv.start) then d else iv.start;
        var end := if Before(iv.end, d) then d else iv.end;
        acc[s := Interval(start, end)]
  }

  /** `episodes.reduce(callback, {})`, defined by its last step. */
  function Fold(eps: seq<Episode>, parseYmd: string -> Date): Table
    decreases |eps|
  {
    if eps == [] then map[] else Step(Fold(eps[..|eps| - 1], parseYmd), eps[|eps| - 1], parseYmd)
  }

  /** The table for a (possibly `null`) episode list: `{}` when there is none. */
  function SeasonsOf(episodes: Option<seq<Episode>>, parseYmd: string -> Date): Table {
    match episodes
    case None => map[]
    case Some(eps) => Fold(eps, parseYmd)
  }

  /** What awaiting `getSeasonsAndStartDates(tvdbId)` gives: the rejection of the
      episode query, or the table. */
  function SeasonsOutcome(services: Services, tvdbId: string): Completion<Table> {
    match services.getEpisodes(tvdbId)
    case Throw(m) => Throw(m)
    case Normal(episodes) => Normal(SeasonsOf(episodes, services.parseYmd))
  }

  /** `getSeasonsAndStartDates`: fetch the episodes and fold them in list order. */
  method GetSeasonsAndStartDates(tvdbId: string, services: Services) returns (r: Completion<Table>)
    ensures r == SeasonsOutcome(services, tvdbId)
  {
    var fetched := services.getEpisodes(tvdbId);
    if fetched.Throw? {
      return Throw(fetched.message);
    }
    if fetched.value.None? {
      return Normal(map[]);
    }
    var eps := fetched.value.value;
    var acc: Table := map[];
    for i := 0 to |eps|
      invariant acc == Fold(eps[..i], services.parseYmd)
    {
      var e := eps[i];
      assert eps[..i + 1][..i] == eps[..i];
      if Dated(e) {
        var parsed := services.parseYmd(e.airDate.value);
        var season := e.seasonNumber;
        if season !in acc {
          acc := acc[season := Interval(parsed, parsed)];
        } else {
          var iv := acc[season];
          if Before(parsed, iv.start) {
            iv := iv.(start := parsed);
          }
          if Before(iv.end, parsed) {
            iv := iv.(end := parsed);
          }
          acc := acc[season := iv];
        }
      }
    }
    assert eps[..|eps|] == eps;
    return Normal(acc);
  }

  /** Episode `i` is a dated episode of season `s`. */
  predicate DatedIn(eps: seq<Episode>, s: nat, i: int) {
    0 <= i < |eps| && eps[i].seasonNumber == s && Dated(eps[i])
  }

  /** A season has an entry exactly when one of its episodes has a non-empty air date. */
  lemma {:induction false} FoldKeys(eps: seq<Episode>, parseYmd: string -> Date, s: nat)
    ensures s in Fold(eps, parseYmd) <==> exists i :: DatedIn(eps, s, i)
    decreases |eps|
  {
    if eps != [] {
      var n := |eps| - 1;
      var init := eps[..n];
      FoldKeys(init, parseYmd, s);
      if exists i :: DatedIn(init, s, i) {
        var i :| DatedIn(init, s, i);
        assert init[i] == eps[i];
        assert DatedIn(eps, s, i);
      }
      if s in Fold(eps, parseYmd) && s !in Fold(init, parseYmd) {
        assert DatedIn(eps, s, n);
      }
      if exists i :: DatedIn(eps, s, i) {
        var i :| DatedIn(eps, s, i);
        if i < n {
          assert init[i] == eps[i];
          assert DatedIn(init, s, i);
        } else {
          assert s in Fold(eps, parseYmd);
        }
      }
    }
  }

  /** Every dated episode of season `s` parses to a calendar day. */
  ghost predicate AllParsed(eps: seq<Episode>, parseYmd: string -> Date, s: nat) {
    forall i | DatedIn(eps, s, i) :: IsCalendarDay(AirDay(eps[i], parseYmd))
  }

  /** `d` is the parsed air date of some dated episode of season `s`. */
  ghost predicate IsAirDayOf(eps: seq<Episode>, parseYmd: string -> Date, s: nat, d: Date) {
    exists i :: DatedIn(eps, s, i) && AirDay(eps[i], parseYmd) == d
  }

  /** `iv` spans the air dates of season `s`: both ends are calendar days and
      air dates of the season, `start <= end`, and every air date of the
      season lies between them. */
  ghost predicate Spans(eps: seq<Episode>, parseYmd: string -> Date, s: nat, iv: Interval) {
    && IsCalendarDay(iv.start) && IsCalendarDay(iv.end)
    && !Before(iv.end, iv.start)
    && IsAirDayOf(eps, parseYmd, s, iv.start)
    && IsAirDayOf(eps, parseYmd, s, iv.end)
    && (forall i | DatedIn(eps, s, i) ::
          !Before(AirDay(eps[i], parseYmd), iv.start) && !Before(iv.end, AirDay(eps[i], parseYmd)))
  }

  /** When every air date of a season parses, `start` is its earliest and `end`
      its latest air date, so `start <= end`. */
  lemma {:induction false} FoldBounds(eps: seq<Episode>, parseYmd: string -> Date, s: nat)
    requires s in Fold(eps, parseYmd)
    requires AllParsed(eps, parseYmd, s)
    ensures Spans(eps, parseYmd, s, Fold(eps, parseYmd)[s])
    decreases |eps|
  {
    var n := |eps| - 1;
    var init := eps[..n];
    var e := eps[n];
    assert forall i | DatedIn(init, s, i) :: DatedIn(eps, s, i) && init[i] == eps[i];
    if s in Fold(init, parseYmd) {
      FoldBounds(init, parseYmd, s);
      var iv := Fold(init, parseYmd)[s];
      var a :| DatedIn(init, s, a) && AirDay(init[a], parseYmd) == iv.start;
      var b :| DatedIn(init, s, b) && AirDay(init[b], parseYmd) == iv.end;
      assert DatedIn(eps, s, a) && DatedIn(eps, s, b);
      if DatedIn(eps, s, n) {
        BoundsExtend(eps, parseYmd, s);
      } else {
        assert Fold(eps, parseYmd)[s] == iv;
        forall i | DatedIn(eps, s, i) ensures DatedIn(init, s, i) && init[i] == eps[i] {
          assert i != n;
        }
      }
    } else {
      FoldKeys(init, parseYmd, s);
      assert DatedIn(eps, s, n);
      forall i | DatedIn(eps, s, i) ensures i == n {
        if i < n {
          assert DatedIn(init, s, i);
        }
      }
      BeforeIsStrictTotalOrder(AirDay(e, parseYmd), AirDay(e, parseYmd), AirDay(e, parseYmd));
    }
  }

  /** Folding one more calendar day `d` into the bounds `lo <= hi`. */
  lemma WidenBounds(d: Date, lo: Date, hi: Date)
    requires IsCalendarDay(d) && IsCalendarDay(lo) && IsCalendarDay(hi) && !Before(hi, lo)
    ensures var lo' := if Before(d, lo) then d else lo;
      var hi' := if Before(hi, d) then d else hi;
      && !Before(hi', lo') && !Before(d, lo') && !Before(hi', d)
      && (forall x | !Before(x, lo) && !Before(hi, x) && x.Day? :: !Before(x, lo') && !Before(hi', x))
  {
    BeforeIsStrictTotalOrder(d, lo, hi);
    BeforeIsStrictTotalOrder(lo, d, hi);
    BeforeIsStrictTotalOrder(lo, hi, d);
    BeforeIsStrictTotalOrder(d, hi, lo);
    forall x | !Before(x, lo) && !Before(hi, x) && x.Day?
      ensures !Before(x, if Before(d, lo) then d else lo) && !Before(if Before(hi, d) then d else hi, x)
    {
      BeforeIsStrictTotalOrder(x, d, lo);
      BeforeIsStrictTotalOrder(hi, d, x);
    }
  }

  /** The inductive step of `FoldBounds` when the last episode is a dated one of season `s`. */
  lemma BoundsExtend(eps: seq<Episode>, parseYmd: string -> Date, s: nat)
    requires eps != [] && DatedIn(eps, s, |eps| - 1)
    requires s in Fold(eps[..|eps| - 1], parseYmd)
    requires AllParsed(eps, parseYmd, s)
    requires Spans(eps[..|eps| - 1], parseYmd, s, Fold(eps[..|eps| - 1], parseYmd)[s])
    ensures Spans(eps, parseYmd, s, Fold(eps, parseYmd)[s])
  {
    var n := |eps| - 1;
    var init := eps[..n];
    var lo := Fold(init, parseYmd)[s].start;
    var hi := Fold(init, parseYmd)[s].end;
    var d := AirDay(eps[n], parseYmd);
    assert IsCalendarDay(d);
    var iv := Fold(eps, parseYmd)[s];
    assert iv == Interval(if Before(d, lo) then d else lo, if Before(hi, d) then d else hi);
    WidenBounds(d, lo, hi);
    var a :| DatedIn(init, s, a) && AirDay(init[a], parseYmd) == lo;
    var b :| DatedIn(init, s, b) && AirDay(init[b], parseYmd) == hi;
    assert init[a] == eps[a] && init[b] == eps[b];
    assert DatedIn(eps, s, a) && DatedIn(eps, s, b);
    assert IsAirDayOf(eps, parseYmd, s, iv.start) && IsAirDayOf(eps, parseYmd, s, iv.end);
    forall i | DatedIn(eps, s, i)
      ensures !Before(AirDay(eps[i], parseYmd), iv.start) && !Before(iv.end, AirDay(eps[i], parseYmd))
    {
      if i < n {
        assert DatedIn(init, s, i) && init[i] == eps[i];
      }
    }
  }

  /** An invalid first air date sticks: when the first dated episode of a season
      does not parse, both ends of its interval stay invalid, whatever follows. */
  lemma {:induction false} InvalidFirstDaySticks(eps: seq<Episode>, parseYmd: string -> Date, s: nat, first: nat)
    requires DatedIn(eps, s, first)
    requires AirDay(eps[first], parseYmd) == Invalid
    requires forall j | 0 <= j < first :: !DatedIn(eps, s, j)
    ensures s in Fold(eps, parseYmd)
    ensures Fold(eps, parseYmd)[s] == Interval(Invalid, Invalid)
    decreases |eps|
  {
    var n := |eps| - 1;
    var init := eps[..n];
    if first == n {
      FoldKeys(init, parseYmd, s);
      forall i | 0 <= i < |init| ensures !DatedIn(init, s, i) {
        assert init[i] == eps[i];
        assert !DatedIn(eps, s, i);
      }
    } else {
      assert init[first] == eps[first];
      forall j | 0 <= j < first ensures !DatedIn(init, s, j) {
        assert init[j] == eps[j];
        assert !DatedIn(eps, s, j);
      }
      InvalidFirstDaySticks(init, parseYmd, s, first);
      InvalidNeverCompares(if Dated(eps[n]) then AirDay(eps[n], parseYmd) else Invalid);
    }
  }
}
