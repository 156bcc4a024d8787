/** The ordered list of search queries derived from an anime's titles
    (the first half of `findSameEntity`). */
module TitleVariants {
  import opened JsBase
  import opened JsStrings
  import opened Catalog

  /** `c` matches the lower-case ASCII letter `lower` under the `i` flag. */
  predicate LetterIs(c: char, lower: char)
    requires 'a' <= lower <= 'z'
  {
    c == lower || c as int == lower as int - 32
  }

  /** The first alternative, `season`, matches at the start of `s`. */
  predicate SeasonAt(s: string) {
    && |s| >= 6
    && LetterIs(s[0], 's') && LetterIs(s[1], 'e') && LetterIs(s[2], 'a')
    && LetterIs(s[3], 's') && LetterIs(s[4], 'o') && LetterIs(s[5], 'n')
  }

  /** Length of the run of ASCII digits at the start of `s` (greedy `\d+`). */
  function DigitRun(s: string): (n: nat)
    ensures n <= |s|
    ensures forall i :: 0 <= i < n ==> IsDigit(s[i])
    ensures n == |s| || !IsDigit(s[n])
  {
    if s != [] && IsDigit(s[0]) then 1 + DigitRun(s[1..]) else 0
  }

  /** Length of the match of `/(season|s\d+|\d+)/i` at the start of `s`, or 0:
      the alternatives are tried left to right and each `\d+` is greedy. */
  function MatchLength(s: string): (n: nat)
    ensures n <= |s|
    ensures s != [] && IsDigit(s[0]) ==> n > 0
  {
    if SeasonAt(s) then 6
    else if |s| >= 2 && LetterIs(s[0], 's') && IsDigit(s[1]) then 1 + DigitRun(s[1..])
    else DigitRun(s)
  }

  /** `s.replace(/(season|s\d+|\d+)/gi, "")`: scan left to right, delete each
      match and resume after it; characters where no match starts are kept. */
  function StripMarkers(s: string): (r: string)
    ensures forall i :: 0 <= i < |r| ==> !IsDigit(r[i])
    ensures forall c :: c in r ==> c in s
    decreases |s|
  {
    if s == [] then []
    else
      var n := MatchLength(s);
      if n > 0 then StripMarkers(s[n..]) else [s[0]] + StripMarkers(s[1..])
  }

  /** The first character is kept when no match starts at it. */
  lemma {:induction false} StripMarkersKeepsHead(s: string)
    requires s != [] && MatchLength(s) == 0
    ensures StripMarkers(s) == [s[0]] + StripMarkers(s[1..])
  {
  }

  /** No match starts at any of the first `n` positions of `s`. */
  ghost predicate UnmatchedPrefix(s: string, n: nat)
    decreases n
  {
    n <= |s| && (n == 0 || (MatchLength(s) == 0 && UnmatchedPrefix(s[1..], n - 1)))
  }

  /** The first `n` characters are kept, in order, when no match starts at
      any of them. */
  lemma {:induction false} StripMarkersKeeps(s: string, n: nat)
    requires UnmatchedPrefix(s, n)
    ensures StripMarkers(s) == s[..n] + StripMarkers(s[n..])
    decreases n
  {
    if n > 0 {
      var t := s[1..];
      StripMarkersKeepsHead(s);
      StripMarkersKeeps(t, n - 1);
      KeptHead(s, n, StripMarkers(s[n..]));
    }
  }

  lemma {:induction false} KeptHead(s: string, n: nat, rest: string)
    requires 0 < n <= |s|
    ensures s[1..][n - 1..] == s[n..]
    ensures [s[0]] + (s[1..][..n - 1] + rest) == s[..n] + rest
  {
    assert s[..n] == [s[0]] + s[1..][..n - 1];
  }

  /** The positions where no match starts, as a quantifier, make an unmatched prefix. */
  lemma {:induction false} UnmatchedPositions(s: string, n: nat)
    requires n <= |s|
    requires forall i :: 0 <= i < n ==> MatchLength(s[i..]) == 0
    ensures UnmatchedPrefix(s, n)
    decreases n
  {
    if n > 0 {
      assert s[0..] == s;
      forall i | 0 <= i < n - 1 ensures MatchLength(s[1..][i..]) == 0 {
        assert s[1..][i..] == s[i + 1..];
      }
      UnmatchedPositions(s[1..], n - 1);
    }
  }

  /** A match at the start is deleted and the scan resumes after it. */
  lemma {:induction false} StripMarkersDrops(m: string, b: string)
    requires |m| > 0 && MatchLength(m + b) == |m|
    ensures StripMarkers(m + b) == StripMarkers(b)
  {
    assert (m + b)[|m|..] == b;
  }

  /** Text in which no match starts is left as it is. */
  lemma {:induction false} StripMarkersNoMatch(s: string)
    requires forall i :: 0 <= i < |s| ==> MatchLength(s[i..]) == 0
    ensures StripMarkers(s) == s
  {
    UnmatchedPositions(s, |s|);
    StripMarkersKeeps(s, |s|);
    assert s[..|s|] == s && s[|s|..] == [];
  }

  /** A title in which no match starts is only trimmed. */
  lemma {:induction false} CleanTitleNoMatch(title: string)
    requires forall i :: 0 <= i < |title| ==> MatchLength(title[i..]) == 0
    ensures CleanTitle(title) == Trim(title)
  {
    StripMarkersNoMatch(title);
  }

  /** No character of `s` is a digit or an `s`. */
  ghost predicate NoMarkerChars(s: string) {
    forall c | c in s :: !IsDigit(c) && !LetterIs(c, 's')
  }

  /** Characters that are neither a digit nor an `s` start no match. */
  lemma {:induction false} PlainTextUnmatched(s: string, n: nat)
    requires n <= |s| && NoMarkerChars(s[..n])
    ensures UnmatchedPrefix(s, n)
    decreases n
  {
    if n > 0 {
      assert s[0] in s[..n];
      assert s[1..][..n - 1] == s[..n][1..];
      PlainTextUnmatched(s[1..], n - 1);
    }
  }

  /** A run of digits is one match and is deleted whole. */
  lemma {:induction false} DigitsStrip(digits: string)
    requires digits != [] && forall i :: 0 <= i < |digits| ==> IsDigit(digits[i])
    ensures StripMarkers(digits) == []
  {
    assert digits + [] == digits;
    StripMarkersDrops(digits, []);
  }

  /** `Season` followed by a space and a season number strips to that space. */
  lemma {:induction false} SeasonSuffixStrips(suffix: string, number: string)
    requires number != [] && forall i :: 0 <= i < |number| ==> IsDigit(number[i])
    requires suffix == "Season " + number
    ensures StripMarkers(suffix) == " "
  {
    var tail := [' '] + number;
    assert suffix == "Season" + tail;
    StripMarkersDrops("Season", tail);
    StripMarkersKeepsHead(tail);
    assert tail[1..] == number;
    DigitsStrip(number);
  }

  /** Trimming drops the two spaces after a name that neither starts nor ends with whitespace. */
  lemma {:induction false} TrimTwoSpaces(name: string)
    requires name != [] && !IsJsWhitespace(name[0]) && !IsJsWhitespace(name[|name| - 1])
    ensures Trim(name + "  ") == name
  {
    var s := name + "  ";
    assert s[0] == name[0];
    assert TrimStart(s) == s;
    var once := s[..|s| - 1];
    assert once == name + " " && once[..|once| - 1] == name;
    assert TrimEnd(s) == TrimEnd(once) == TrimEnd(name) == name;
  }

  /** Text without digits or `s` in front of a suffix is kept as it is. */
  lemma {:induction false} PlainPrefixKept(kept: string, suffix: string)
    requires NoMarkerChars(kept)
    ensures StripMarkers(kept + suffix) == kept + StripMarkers(suffix)
  {
    var s := kept + suffix;
    assert s[..|kept|] == kept && s[|kept|..] == suffix;
    PlainTextUnmatched(s, |kept|);
    StripMarkersKeeps(s, |kept|);
  }

  /** A name in which no match starts, followed by ` Season ` and a season
      number, strips to the name and two spaces. */
  lemma {:induction false} StripSeasonTitle(name: string, number: string)
    requires NoMarkerChars(name)
    requires number != [] && forall i :: 0 <= i < |number| ==> IsDigit(number[i])
    ensures StripMarkers(name + " Season " + number) == name + "  "
  {
    var kept := name + " ";
    var suffix := "Season " + number;
    assert name + " Season " + number == kept + suffix;
    assert StripMarkers(kept + suffix) == kept + StripMarkers(suffix) by {
      assert NoMarkerChars(kept);
      PlainPrefixKept(kept, suffix);
    }
    assert StripMarkers(suffix) == " " by {
      SeasonSuffixStrips(suffix, number);
    }
    assert kept + " " == name + "  ";
  }

  /** Such a title cleans to the name: `"Attack on Titan Season 2"` becomes
      `"Attack on Titan"`. */
  lemma {:induction false} CleanSeasonTitle(name: string, number: string)
    requires NoMarkerChars(name) && name != [] && !IsJsWhitespace(name[0]) && !IsJsWhitespace(name[|name| - 1])
    requires number != [] && forall i :: 0 <= i < |number| ==> IsDigit(number[i])
    ensures CleanTitle(name + " Season " + number) == name
  {
    StripSeasonTitle(name, number);
    TrimTwoSpaces(name);
  }

  /** The worked example: `"Attack on Titan Season 2"` cleans to `"Attack on Titan"`. */
  lemma {:induction false} CleanTitleExample(name: string, number: string)
    requires name == "Attack on Titan" && number == "2"
    ensures CleanTitle(name + " Season " + number) == name
  {
    CleanSeasonTitle(name, number);
  }

  /** The cleaned title: `title.replace(/(season|s\d+|\d+)/gi, "").trim()`. */
  function CleanTitle(title: string): (r: string)
    ensures forall i :: 0 <= i < |r| ==> !IsDigit(r[i])
    ensures r == [] || (!IsJsWhitespace(r[0]) && !IsJsWhitespace(r[|r| - 1]))
  {
    var stripped := StripMarkers(title);
    TrimSpec(stripped);
    var r := Trim(stripped);
    assert forall i :: 0 <= i < |r| ==> r[i] in stripped;
    r
  }

  datatype VariantKind = EnglishOriginal | EnglishCleaned | RomajiOriginal | RomajiCleaned | Japanese

  /** The `type` label that a variant carries. */
  function Label(k: VariantKind): string {
    match k
    case EnglishOriginal => "English (original)"
    case EnglishCleaned => "English (cleaned)"
    case RomajiOriginal => "Romaji (original)"
    case RomajiCleaned => "Romaji (cleaned)"
    case Japanese => "Japanese"
  }

  /** Every label is a non-empty string, so a match always reports how it was found. */
  lemma LabelNonEmpty(k: VariantKind)
    ensures |Label(k)| > 0
  {
  }

  /** The position of a kind in the fixed preference order. */
  function Rank(k: VariantKind): (r: nat)
    ensures r < 5
  {
    match k
    case EnglishOriginal => 0
    case EnglishCleaned => 1
    case RomajiOriginal => 2
    case RomajiCleaned => 3
    case Japanese => 4
  }

  function KindOfRank(r: nat): (k: VariantKind)
    requires r < 5
    ensures Rank(k) == r
  {
    if r == 0 then EnglishOriginal
    else if r == 1 then EnglishCleaned
    else if r == 2 then RomajiOriginal
    else if r == 3 then RomajiCleaned
    else Japanese
  }

  /** One search to try: the title it came from, its label and its query. */
  datatype Variant = Variant(title: string, kind: VariantKind, query: string)

  /** The variant of kind `k` that `findSameEntity` emits for `anime`, if any. */
  function Slot(anime: Anime, k: VariantKind): (r: Option<Variant>)
    ensures r.Some? ==> r.value.kind == k
  {
    match k
    case EnglishOriginal =>
      if Truthy(anime.titleEn) then Some(Variant(anime.titleEn.value, k, anime.titleEn.value)) else None
    case EnglishCleaned =>
      if Truthy(anime.titleEn) && CleanTitle(anime.titleEn.value) != anime.titleEn.value
      then Some(Variant(anime.titleEn.value, k, CleanTitle(anime.titleEn.value))) else None
    case RomajiOriginal =>
      if Truthy(anime.titleRomaji) && anime.titleRomaji != anime.titleEn
      then Some(Variant(anime.titleRomaji.value, k, anime.titleRomaji.value)) else None
    case RomajiCleaned =>
      if && Truthy(anime.titleRomaji) && anime.titleRomaji != anime.titleEn
         && CleanTitle(anime.titleRomaji.value) != anime.titleRomaji.value
      then Some(Variant(anime.titleRomaji.value, k, CleanTitle(anime.titleRomaji.value))) else None
    case Japanese =>
      if Truthy(anime.titleJp) && anime.titleJp != anime.titleEn && anime.titleJp != anime.titleRomaji
      then Some(Variant(anime.titleJp.value, k, anime.titleJp.value)) else None
  }

  /** A choice, for every kind, of the variant emitted for it (or none). */
  type Slots = VariantKind -> Option<Variant>

  ghost predicate WellKinded(slot: Slots) {
    forall k :: slot(k).Some? ==> slot(k).value.kind == k
  }

  ghost predicate Ascending(vs: seq<Variant>) {
    forall i, j :: 0 <= i < j < |vs| ==> Rank(vs[i].kind) < Rank(vs[j].kind)
  }

  /** `vs` lists the chosen variants of `slot` whose rank is below `r`: kinds in
      strictly increasing preference order, every entry the chosen variant of its
      kind, and every chosen kind below `r` present. */
  ghost predicate ListsBelow(slot: Slots, vs: seq<Variant>, r: nat) {
    && Ascending(vs)
    && (forall i :: 0 <= i < |vs| ==> Rank(vs[i].kind) < r && slot(vs[i].kind) == Some(vs[i]))
    && (forall k {:trigger slot(k)} :: slot(k).Some? && Rank(k) < r ==> exists i :: 0 <= i < |vs| && vs[i].kind == k)
  }

  /** The choice `findSameEntity` makes for `anime`. */
  ghost function SlotsOf(anime: Anime): (slot: Slots)
    ensures WellKinded(slot)
  {
    k => Slot(anime, k)
  }

  /** `vs` is the variant list of `anime`. */
  ghost predicate VariantsFor(anime: Anime, vs: seq<Variant>) {
    ListsBelow(SlotsOf(anime), vs, 5)
  }

  /** The variant of rank `r`, if chosen. */
  ghost function Piece(slot: Slots, r: nat): seq<Variant>
    requires r < 5
  {
    match slot(KindOfRank(r))
    case Some(v) => [v]
    case None => []
  }

  /** The chosen variants whose rank is below `r`, in preference order. */
  ghost function Canonical(slot: Slots, r: nat): seq<Variant>
    requires r <= 5
  {
    if r == 0 then [] else Canonical(slot, r - 1) + Piece(slot, r - 1)
  }

  /** The variant list of `anime`, defined from the preference order alone. */
  ghost function CanonicalVariants(anime: Anime): seq<Variant> {
    Canonical(SlotsOf(anime), 5)
  }

  /** At most five variants are ever emitted. */
  lemma {:induction false} AtMostFiveVariants(anime: Anime, vs: seq<Variant>)
    requires VariantsFor(anime, vs)
    ensures |vs| <= 5
  {
    if vs != [] {
      RanksGrow(vs, |vs| - 1);
    }
  }

  lemma {:induction false} RanksGrow(vs: seq<Variant>, n: nat)
    requires Ascending(vs)
    requires n < |vs|
    ensures Rank(vs[n].kind) >= n
  {
    if n > 0 {
      RanksGrow(vs, n - 1);
    }
  }

  /** The characterisation determines the list: it is the canonical one. */
  lemma VariantsForIsCanonical(anime: Anime, vs: seq<Variant>)
    requires VariantsFor(anime, vs)
    ensures vs == CanonicalVariants(anime)
  {
    CanonicalUnique(SlotsOf(anime), vs, 5);
  }

  lemma {:induction false} CanonicalUnique(slot: Slots, vs: seq<Variant>, r: nat)
    requires r <= 5
    requires ListsBelow(slot, vs, r)
    ensures vs == Canonical(slot, r)
    decreases r
  {
    if r == 0 {
      ListLength(slot, vs, r);
    } else if slot(KindOfRank(r - 1)).Some? {
      var n := LastIsTopRank(slot, vs, r);
      var init := vs[..n];
      CanonicalUnique(slot, init, r - 1);
      var v := vs[n];
      SplitLast(vs);
      calc {
        Canonical(slot, r);
        Canonical(slot, r - 1) + Piece(slot, r - 1);
        { assert Piece(slot, r - 1) == [v]; }
        init + [v];
        vs;
      }
    } else {
      TopRankAbsent(slot, vs, r);
      CanonicalUnique(slot, vs, r - 1);
      calc {
        Canonical(slot, r);
        Canonical(slot, r - 1) + Piece(slot, r - 1);
        { assert Piece(slot, r - 1) == []; }
        vs + [];
        vs;
      }
    }
  }

  /** A list of ranks below `r` has at most `r` entries. */
  lemma ListLength(slot: Slots, vs: seq<Variant>, r: nat)
    requires ListsBelow(slot, vs, r)
    ensures |vs| <= r
  {
    if vs != [] {
      RanksGrow(vs, |vs| - 1);
    }
  }

  /** A non-empty sequence is its prefix followed by its last element. */
  lemma SplitLast<T>(s: seq<T>)
    requires s != []
    ensures s == s[..|s| - 1] + [s[|s| - 1]]
  {
  }

  /** When rank `r - 1` is chosen, it is the last entry, and the rest lists the ranks below. */
  lemma LastIsTopRank(slot: Slots, vs: seq<Variant>, r: nat) returns (n: nat)
    requires 0 < r <= 5
    requires ListsBelow(slot, vs, r)
    requires slot(KindOfRank(r - 1)).Some?
    ensures n == |vs| - 1
    ensures slot(KindOfRank(r - 1)) == Some(vs[n])
    ensures ListsBelow(slot, vs[..n], r - 1)
  {
    var k := KindOfRank(r - 1);
    var i :| 0 <= i < |vs| && vs[i].kind == k;
    n := |vs| - 1;
    assert Rank(vs[n].kind) < r;
    assert i == n;
    var init := vs[..n];
    forall k' | slot(k').Some? && Rank(k') < r - 1
      ensures exists j :: 0 <= j < |init| && init[j].kind == k'
    {
      var j :| 0 <= j < |vs| && vs[j].kind == k';
      assert j != n;
      assert init[j].kind == k';
    }
    forall j | 0 <= j < |init| ensures Rank(init[j].kind) < r - 1 {
      assert Rank(vs[j].kind) < Rank(vs[n].kind);
    }
  }

  /** When rank `r - 1` is not chosen, the same list lists the ranks below it. */
  lemma TopRankAbsent(slot: Slots, vs: seq<Variant>, r: nat)
    requires 0 < r <= 5
    requires ListsBelow(slot, vs, r)
    requires slot(KindOfRank(r - 1)).None?
    ensures ListsBelow(slot, vs, r - 1)
  {
    forall j | 0 <= j < |vs| ensures Rank(vs[j].kind) < r - 1 {
      assert vs[j].kind != KindOfRank(r - 1);
    }
  }

  /** The canonical list satisfies the characterisation. */
  lemma CanonicalVariantsFor(anime: Anime, vs: seq<Variant>)
    requires vs == CanonicalVariants(anime)
    ensures VariantsFor(anime, vs)
  {
    CanonicalFacts(SlotsOf(anime), 5);
  }

  lemma {:induction false} CanonicalFacts(slot: Slots, r: nat)
    requires r <= 5
    requires WellKinded(slot)
    ensures ListsBelow(slot, Canonical(slot, r), r)
  {
    if r > 0 {
      CanonicalFacts(slot, r - 1);
      var init := Canonical(slot, r - 1);
      match slot(KindOfRank(r - 1))
      case Some(v) =>
        AppendChosen(slot, init, r - 1, v);
        assert Canonical(slot, r) == init + [v];
      case None =>
        AppendNothing(slot, init, r - 1);
        assert Canonical(slot, r) == init + [];
        assert init + [] == init;
    }
  }

  /** Appending the chosen variant of rank `r` extends a list below `r` to one below `r + 1`. */
  lemma AppendChosen(slot: Slots, vs: seq<Variant>, r: nat, v: Variant)
    requires r < 5
    requires ListsBelow(slot, vs, r)
    requires slot(KindOfRank(r)) == Some(v) && v.kind == KindOfRank(r)
    ensures ListsBelow(slot, vs + [v], r + 1)
  {
    var ext := vs + [v];
    assert forall i :: 0 <= i < |vs| ==> ext[i] == vs[i];
    assert ext[|vs|] == v;
    forall k | slot(k).Some? && Rank(k) < r + 1
      ensures exists i :: 0 <= i < |ext| && ext[i].kind == k
    {
      if Rank(k) == r {
        assert k == v.kind;
        assert ext[|vs|].kind == k;
      } else {
        var j :| 0 <= j < |vs| && vs[j].kind == k;
        assert ext[j] == vs[j];
      }
    }
  }

  /** When rank `r` is not chosen, a list below `r` is also one below `r + 1`. */
  lemma AppendNothing(slot: Slots, vs: seq<Variant>, r: nat)
    requires r < 5
    requires ListsBelow(slot, vs, r)
    requires slot(KindOfRank(r)).None?
    ensures ListsBelow(slot, vs, r + 1)
  {
    forall k | slot(k).Some? && Rank(k) < r + 1
      ensures exists i :: 0 <= i < |vs| && vs[i].kind == k
    {
      assert k != KindOfRank(r);
    }
  }

  /** Appending the piece of rank `r` to the list below `r` gives the list below `r + 1`. */
  lemma Extend(slot: Slots, r: nat, vs: seq<Variant>, piece: seq<Variant>)
    requires r < 5
    requires vs == Canonical(slot, r)
    requires piece == Piece(slot, r)
    ensures vs + piece == Canonical(slot, r + 1)
  {
  }

  /** `findSameEntity`'s construction of `searchVariants` by successive pushes. */
  method BuildSearchVariants(anime: Anime) returns (variants: seq<Variant>)
    ensures variants == CanonicalVariants(anime)
  {
    ghost var slot := SlotsOf(anime);
    variants := [];
    if Truthy(anime.titleEn) {
      var en := anime.titleEn.value;
      Extend(slot, 0, variants, [Variant(en, EnglishOriginal, en)]);
      variants := variants + [Variant(en, EnglishOriginal, en)];
      var cleanedEn := CleanTitle(en);
      if cleanedEn != en {
        Extend(slot, 1, variants, [Variant(en, EnglishCleaned, cleanedEn)]);
        variants := variants + [Variant(en, EnglishCleaned, cleanedEn)];
      } else {
        Extend(slot, 1, variants, []);
      }
    } else {
      Extend(slot, 0, variants, []);
      Extend(slot, 1, variants, []);
    }
    if Truthy(anime.titleRomaji) && anime.titleRomaji != anime.titleEn {
      var romaji := anime.titleRomaji.value;
      Extend(slot, 2, variants, [Variant(romaji, RomajiOriginal, romaji)]);
      variants := variants + [Variant(romaji, RomajiOriginal, romaji)];
      var cleanedRomaji := CleanTitle(romaji);
      if cleanedRomaji != romaji {
        Extend(slot, 3, variants, [Variant(romaji, RomajiCleaned, cleanedRomaji)]);
        variants := variants + [Variant(romaji, RomajiCleaned, cleanedRomaji)];
      } else {
        Extend(slot, 3, variants, []);
      }
    } else {
      Extend(slot, 2, variants, []);
      Extend(slot, 3, variants, []);
    }
    if Truthy(anime.titleJp) && anime.titleJp != anime.titleEn && anime.titleJp != anime.titleRomaji {
      var jp := anime.titleJp.value;
      Extend(slot, 4, variants, [Variant(jp, Japanese, jp)]);
      variants := variants + [Variant(jp, Japanese, jp)];
    } else {
      Extend(slot, 4, variants, []);
    }
  }

  /** A title made only of digits still yields a cleaned variant, with an empty query. */
  lemma AllDigitTitleGivesEmptyQuery(vs: seq<Variant>)
    requires VariantsFor(Anime("1", Some("2024"), None, None, None), vs)
    ensures vs == [Variant("2024", EnglishOriginal, "2024"), Variant("2024", EnglishCleaned, "")]
  {
    VariantsForIsCanonical(Anime("1", Some("2024"), None, None, None), vs);
    AllDigitCanonical();
  }

  lemma AllDigitCanonical()
    ensures CanonicalVariants(Anime("1", Some("2024"), None, None, None))
         == [Variant("2024", EnglishOriginal, "2024"), Variant("2024", EnglishCleaned, "")]
  {
    var anime := Anime("1", Some("2024"), None, None, None);
    assert StripMarkers("2024") == "" by {
      assert MatchLength("2024") == 4;
    }
    assert CleanTitle("2024") == "";
    var slot := SlotsOf(anime);
    var eo := Variant("2024", EnglishOriginal, "2024");
    var ec := Variant("2024", EnglishCleaned, "");
    assert Piece(slot, 0) == [eo];
    assert Piece(slot, 1) == [ec];
    assert Piece(slot, 2) == [] && Piece(slot, 3) == [] && Piece(slot, 4) == [];
    calc {
      Canonical(slot, 5);
      Canonical(slot, 2);
      Canonical(slot, 0) + [eo] + [ec];
    }
  }
}
