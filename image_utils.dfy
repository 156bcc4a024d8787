/** The CDN image URL builder: `getCdnUrl`, `getSafeImageUrl` and the
    `escapeUri` helper, over ECMAScript's `encodeURIComponent`
    (section 18.2.6.5 of ECMAScript 2015) and percent-encoding as section 2.1
    of RFC 3986 defines it. */
module ImageUtils {
  import opened JsBase
  import opened JsStrings

  /** `getCdnUrl()`. */
  const CdnUrl: string := "https://cdn.weeb.vip"

  predicate IsAlpha(c: char) {
    'A' <= c <= 'Z' || 'a' <= c <= 'z'
  }

  /** The characters `encodeURIComponent` leaves as they are: the
      uriUnreserved production of section 18.2.6.1 of ECMAScript 2015. */
  predicate IsUriUnreserved(c: char) {
    IsAlpha(c) || IsDigit(c) || c == '-' || c == '_' || c == '.' || c == '~' || IsExtraEscaped(c)
  }

  /** The unreserved characters of section 2.3 of RFC 3986. */
  predicate IsUnreserved(c: char) {
    IsAlpha(c) || IsDigit(c) || c == '-' || c == '.' || c == '_' || c == '~'
  }

  /** The characters `escapeUri` encodes on top of `encodeURIComponent`. */
  predicate IsExtraEscaped(c: char) {
    c == '!' || c == '\'' || c == '(' || c == ')' || c == '*'
  }

  predicate IsUpperHex(c: char) {
    IsDigit(c) || 'A' <= c <= 'F'
  }

  function HexDigit(n: nat): (c: char)
    requires n < 16
    ensures IsUpperHex(c)
  {
    if n < 10 then ('0' as int + n) as char else ('A' as int + n - 10) as char
  }

  function HexValue(c: char): (n: nat)
    requires IsUpperHex(c)
    ensures n < 16 && HexDigit(n) == c
  {
    if IsDigit(c) then c as int - '0' as int else c as int - 'A' as int + 10
  }

  /** `%XY`, the percent-encoding of one octet, with upper-case hex digits. */
  function PercentEncode(b: nat): (r: string)
    requires b < 256
    ensures |r| == 3 && r[0] == '%' && IsUpperHex(r[1]) && IsUpperHex(r[2])
  {
    ['%', HexDigit(b / 16), HexDigit(b % 16)]
  }

  /** The UTF-8 octets of a code point (RFC 3629). */
  function Utf8(c: char): (r: seq<nat>)
    ensures 1 <= |r| <= 4 && forall i :: 0 <= i < |r| ==> r[i] < 256
    ensures IsAscii(c) ==> r == [c as nat]
  {
    var n := c as int;
    if n < 0x80 then [n]
    else if n < 0x800 then [0xC0 + n / 0x40, 0x80 + n % 0x40]
    else if n < 0x1_0000 then [0xE0 + n / 0x1000, 0x80 + n / 0x40 % 0x40, 0x80 + n % 0x40]
    else [0xF0 + n / 0x4_0000, 0x80 + n / 0x1000 % 0x40, 0x80 + n / 0x40 % 0x40, 0x80 + n % 0x40]
  }

  /** The percent-encodings of a sequence of octets, one after the other. */
  function EncodeOctets(bs: seq<nat>): (r: string)
    requires forall i :: 0 <= i < |bs| ==> bs[i] < 256
    ensures |r| == 3 * |bs|
  {
    if bs == [] then [] else PercentEncode(bs[0]) + EncodeOctets(bs[1..])
  }

  /** What `encodeURIComponent` emits for one code point. */
  function EncodeChar(c: char): string {
    if IsUriUnreserved(c) then [c] else EncodeOctets(Utf8(c))
  }

  /** `encodeURIComponent(s)`. A Dafny string holds no lone surrogate, so
      the `URIError` case does not arise. */
  function EncodeUriComponent(s: string): string {
    if s == [] then [] else EncodeChar(s[0]) + EncodeUriComponent(s[1..])
  }

  /** `n.toString(16)`: lower-case hexadecimal digits. */
  function ToHex(n: nat): (r: string)
    ensures |r| >= 1
  {
    if n < 16 then [LowerHexDigit(n)] else ToHex(n / 16) + [LowerHexDigit(n % 16)]
  }

  function LowerHexDigit(n: nat): char
    requires n < 16
  {
    if n < 10 then ('0' as int + n) as char else ('a' as int + n - 10) as char
  }

  /** ASCII upper-case mapping, which is what `toUpperCase` does on ASCII text. */
  function Upper(s: string): (r: string)
    ensures |r| == |s|
    ensures forall i :: 0 <= i < |s| ==> r[i] == if 'a' <= s[i] <= 'z' then (s[i] as int - 32) as char else s[i]
  {
    if s == [] then [] else [if 'a' <= s[0] <= 'z' then (s[0] as int - 32) as char else s[0]] + Upper(s[1..])
  }

  /** The replacement `escapeUri` computes for a character the regular
      expression `[!'()*]` matched. */
  function EscapeExtra(c: char): string {
    "%" + Upper(ToHex(c as nat))
  }

  /** `s.replace(/[!'()*]/g, EscapeExtra)`. */
  function ReplaceExtra(s: string): string {
    if s == [] then [] else (if IsExtraEscaped(s[0]) then EscapeExtra(s[0]) else [s[0]]) + ReplaceExtra(s[1..])
  }

  /** `escapeUri(s)`. */
  function EscapeUri(s: string): string {
    ReplaceExtra(EncodeUriComponent(s))
  }

  /** `%20` occurs in `s` at index `i`. */
  predicate Percent20At(s: string, i: nat) {
    i + 3 <= |s| && s[i] == '%' && s[i + 1] == '2' && s[i + 2] == '0'
  }

  /** `s.replace(/%20/g, "+")`: a left-to-right scan for non-overlapping matches. */
  function ReplacePercent20(s: string): (r: string)
    ensures |r| <= |s|
  {
    if Percent20At(s, 0) then "+" + ReplacePercent20(s[3..])
    else if s == [] then []
    else [s[0]] + ReplacePercent20(s[1..])
  }

  /** `getSafeImageUrl(src, path)`. */
  function GetSafeImageUrl(src: string, path: Option<string>): string {
    var encodedSrc := ReplacePercent20(Lower(src));
    var pathPrefix := if Truthy(path) then path.value + "/" else "";
    CdnUrl + "/" + pathPrefix + EncodeUriComponent(EscapeUri(encodedSrc))
  }

  // ---------------------------------------------------------------------
  // Percent-encoded text and its decoding

  /** `s` is made of RFC 3986 unreserved characters and `%XY` triplets with
      upper-case hex digits. */
  predicate Encoded(s: string)
    decreases |s|
  {
    if s == [] then true
    else if s[0] == '%' then |s| >= 3 && IsUpperHex(s[1]) && IsUpperHex(s[2]) && Encoded(s[3..])
    else IsUnreserved(s[0]) && Encoded(s[1..])
  }

  /** Percent-decoding: each `%XY` triplet becomes the character with code
      `XY`, every other character stays. On ASCII text this is what
      `decodeURIComponent` does. */
  function Decode(s: string): (r: string)
    decreases |s|
  {
    if |s| >= 3 && s[0] == '%' && IsUpperHex(s[1]) && IsUpperHex(s[2]) then
      [(HexValue(s[1]) * 16 + HexValue(s[2])) as char] + Decode(s[3..])
    else if s == [] then []
    else [s[0]] + Decode(s[1..])
  }

  /** What `escapeUri` emits for one character. */
  function EscapeChar(c: char): string {
    if IsExtraEscaped(c) then EscapeExtra(c) else EncodeChar(c)
  }

  /** The texts of `EscapeChar` for each character, one after the other. */
  function EscapeEach(s: string): string {
    if s == [] then [] else EscapeChar(s[0]) + EscapeEach(s[1..])
  }

  lemma {:induction false} ReplaceExtraAppend(a: string, b: string)
    ensures ReplaceExtra(a + b) == ReplaceExtra(a) + ReplaceExtra(b)
  {
    if a != [] {
      ReplaceExtraAppend(a[1..], b);
      assert (a + b)[0] == a[0] && (a + b)[1..] == a[1..] + b;
      var x := if IsExtraEscaped(a[0]) then EscapeExtra(a[0]) else [a[0]];
      assert ReplaceExtra(a + b) == x + (ReplaceExtra(a[1..]) + ReplaceExtra(b));
    } else {
      assert a + b == b;
    }
  }

  /** Text without any of `!'()*` is what `escapeUri`'s `replace` leaves alone. */
  lemma {:induction false} ReplaceExtraNone(s: string)
    requires forall i :: 0 <= i < |s| ==> !IsExtraEscaped(s[i])
    ensures ReplaceExtra(s) == s
  {
    if s != [] {
      assert forall i :: 0 <= i < |s[1..]| ==> s[1..][i] == s[i + 1];
      ReplaceExtraNone(s[1..]);
    }
  }

  /** Percent-triplets have nothing `escapeUri`'s `replace` matches. */
  lemma ReplaceExtraOctets(bs: seq<nat>)
    requires forall i :: 0 <= i < |bs| ==> bs[i] < 256
    ensures ReplaceExtra(EncodeOctets(bs)) == EncodeOctets(bs)
  {
    EncodedOctets(bs);
    EncodedHasNoExtra(EncodeOctets(bs));
    ReplaceExtraNone(EncodeOctets(bs));
  }

  /** The replacement for `!'()*` is the percent-encoding of the character. */
  lemma EscapeExtraIsPercent(c: char)
    requires IsExtraEscaped(c)
    ensures EscapeExtra(c) == PercentEncode(c as nat)
  {
    var n := c as nat;
    assert 0x21 <= n <= 0x2A;
    assert ToHex(n) == ToHex(n / 16) + [LowerHexDigit(n % 16)];
  }

  /** `escapeUri` works character by character: every character of
      `encodeURIComponent`'s uriMark set but `-_.~` ends up percent-encoded. */
  lemma {:induction false} EscapeUriCharwise(s: string)
    ensures EscapeUri(s) == EscapeEach(s)
  {
    if s != [] {
      EscapeUriCharwise(s[1..]);
      var c := s[0];
      ReplaceExtraAppend(EncodeChar(c), EncodeUriComponent(s[1..]));
      if IsUriUnreserved(c) {
        if IsExtraEscaped(c) {
          EscapeExtraIsPercent(c);
          assert ReplaceExtra([c]) == EscapeExtra(c);
        } else {
          assert ReplaceExtra([c]) == [c];
        }
      } else {
        ReplaceExtraOctets(Utf8(c));
      }
    }
  }

  lemma {:induction false} EncodedAppend(a: string, b: string)
    requires Encoded(a) && Encoded(b)
    ensures Encoded(a + b)
    decreases |a|
  {
    if a == [] {
      assert a + b == b;
    } else if a[0] == '%' {
      EncodedAppend(a[3..], b);
      var ab := a + b;
      assert ab[0] == '%' && ab[1] == a[1] && ab[2] == a[2];
      assert ab[3..] == a[3..] + b;
    } else {
      EncodedAppend(a[1..], b);
      var ab := a + b;
      assert ab[0] == a[0];
      assert ab[1..] == a[1..] + b;
    }
  }

  lemma {:induction false} EncodedOctets(bs: seq<nat>)
    requires forall i :: 0 <= i < |bs| ==> bs[i] < 256
    ensures Encoded(EncodeOctets(bs))
  {
    if bs != [] {
      EncodedOctets(bs[1..]);
      var p := PercentEncode(bs[0]);
      assert Encoded(p) by {
        assert p[3..] == [];
      }
      EncodedAppend(p, EncodeOctets(bs[1..]));
    }
  }

  lemma EncodedEscapeChar(c: char)
    ensures Encoded(EscapeChar(c))
  {
    if IsExtraEscaped(c) {
      EscapeExtraIsPercent(c);
      assert PercentEncode(c as nat)[3..] == [];
    } else if IsUriUnreserved(c) {
      assert [c][1..] == [];
    } else {
      EncodedOctets(Utf8(c));
    }
  }

  /** `escapeUri` emits only RFC 3986 unreserved characters and `%XY`
      triplets with upper-case hex digits; in particular none of `!'()*`. */
  lemma {:induction false} EscapeUriEncoded(s: string)
    ensures Encoded(EscapeUri(s))
    ensures forall i :: 0 <= i < |EscapeUri(s)| ==> !IsExtraEscaped(EscapeUri(s)[i])
  {
    EscapeUriCharwise(s);
    EscapeEachEncoded(s);
    EncodedHasNoExtra(EscapeUri(s));
  }

  lemma {:induction false} EscapeEachEncoded(s: string)
    ensures Encoded(EscapeEach(s))
  {
    if s != [] {
      EscapeEachEncoded(s[1..]);
      EncodedEscapeChar(s[0]);
      EncodedAppend(EscapeChar(s[0]), EscapeEach(s[1..]));
    }
  }

  /** Encoded text holds no character of `!'()*`. */
  lemma {:induction false} EncodedHasNoExtra(s: string)
    requires Encoded(s)
    ensures forall i :: 0 <= i < |s| ==> !IsExtraEscaped(s[i])
    decreases |s|
  {
    if s != [] {
      var k := if s[0] == '%' then 3 else 1;
      EncodedHasNoExtra(s[k..]);
      forall i | 0 <= i < |s| ensures !IsExtraEscaped(s[i]) {
        if i >= k {
          assert s[i] == s[k..][i - k];
        }
      }
    }
  }

  /** Decoding a triplet gives back the octet, whatever follows. */
  lemma DecodePercent(b: nat, rest: string)
    requires b < 256
    ensures Decode(PercentEncode(b) + rest) == [b as char] + Decode(rest)
  {
    var e := PercentEncode(b) + rest;
    assert e[0] == '%' && e[1] == HexDigit(b / 16) && e[2] == HexDigit(b % 16);
    assert e[3..] == rest;
  }

  /** Decoding what `escapeUri` emits for an ASCII character gives the
      character back, whatever follows. */
  lemma DecodeEscapeChar(c: char, rest: string)
    requires IsAscii(c)
    ensures Decode(EscapeChar(c) + rest) == [c] + Decode(rest)
  {
    if IsExtraEscaped(c) {
      EscapeExtraIsPercent(c);
      DecodePercent(c as nat, rest);
    } else if !IsUriUnreserved(c) {
      assert EscapeChar(c) == PercentEncode(c as nat) by {
        assert EncodeOctets([c as nat]) == PercentEncode(c as nat) + EncodeOctets([]);
      }
      DecodePercent(c as nat, rest);
    } else {
      var e := [c] + rest;
      assert e[0] == c && e[1..] == rest;
    }
  }

  /** Percent-decoding the output of `escapeUri` gives back its ASCII input. */
  lemma {:induction false} DecodeEscapeUri(s: string)
    requires IsAsciiString(s)
    ensures Decode(EscapeUri(s)) == s
  {
    EscapeUriCharwise(s);
    DecodeEscapeEach(s);
  }

  lemma {:induction false} DecodeEscapeEach(s: string)
    requires IsAsciiString(s)
    ensures Decode(EscapeEach(s)) == s
  {
    if s != [] {
      assert IsAsciiString(s[1..]) by {
        forall i | 0 <= i < |s[1..]| ensures IsAscii(s[1..][i]) {
          assert s[1..][i] == s[i + 1];
        }
      }
      DecodeEscapeEach(s[1..]);
      DecodeEscapeChar(s[0], EscapeEach(s[1..]));
    }
  }

  // ---------------------------------------------------------------------
  // The second encodeURIComponent

  /** Each `%` of `s` replaced by `%25`. */
  function EscapePercents(s: string): string {
    if s == [] then [] else (if s[0] == '%' then "%25" else [s[0]]) + EscapePercents(s[1..])
  }

  /** On encoded text, `encodeURIComponent` only turns each `%` into `%25`. */
  lemma {:induction false} EncodeEncoded(s: string)
    requires Encoded(s)
    ensures EncodeUriComponent(s) == EscapePercents(s)
    decreases |s|
  {
    if s != [] {
      if s[0] == '%' {
        assert EncodeChar('%') == "%25" by {
          assert EncodeOctets(['%' as nat]) == PercentEncode(0x25) + EncodeOctets([]);
        }
        assert EncodeChar(s[1]) == [s[1]] && EncodeChar(s[2]) == [s[2]];
        assert s[1..][0] == s[1] && s[1..][1..][0] == s[2] && s[1..][1..][1..] == s[3..];
        EncodeEncoded(s[3..]);
        var t := EscapePercents(s[3..]);
        assert EscapePercents(s[1..][1..]) == [s[2]] + t;
        assert EscapePercents(s[1..]) == [s[1]] + ([s[2]] + t);
        assert EncodeUriComponent(s[1..][1..]) == [s[2]] + t;
        assert EncodeUriComponent(s[1..]) == [s[1]] + ([s[2]] + t);
      } else {
        EncodeEncoded(s[1..]);
      }
    }
  }

  /** How `EscapePercents` writes a leading triplet of encoded text. */
  lemma EscapePercentsTriplet(s: string)
    requires Encoded(s) && s != [] && s[0] == '%'
    ensures |s| >= 3 && Encoded(s[3..])
    ensures EscapePercents(s) == "%25" + ([s[1]] + ([s[2]] + EscapePercents(s[3..])))
  {
    var s1, s2 := s[1..], s[2..];
    assert s1[0] == s[1] && s1[1..] == s2 && s2[0] == s[2] && s2[1..] == s[3..];
    assert EscapePercents(s2) == [s[2]] + EscapePercents(s[3..]);
    assert EscapePercents(s1) == [s[1]] + EscapePercents(s2);
  }

  /** Decoding once undoes `EscapePercents` on encoded text. */
  lemma {:induction false} DecodeEscapePercents(s: string)
    requires Encoded(s)
    ensures Decode(EscapePercents(s)) == s
    decreases |s|
  {
    if s != [] {
      if s[0] == '%' {
        EscapePercentsTriplet(s);
        var t := EscapePercents(s[3..]);
        DecodeEscapePercents(s[3..]);
        var x := [s[2]] + t;
        var y := [s[1]] + x;
        var e := "%25" + y;
        assert e[0] == '%' && e[1] == '2' && e[2] == '5' && e[3..] == y;
        assert y[0] == s[1] && y[1..] == x && x[0] == s[2] && x[1..] == t;
        assert Decode(x) == [s[2]] + Decode(t);
        assert Decode(y) == [s[1]] + Decode(x);
        assert s == [s[0]] + ([s[1]] + ([s[2]] + s[3..]));
      } else {
        DecodeEscapePercents(s[1..]);
        var rest := EscapePercents(s[1..]);
        assert EscapePercents(s) == [s[0]] + rest;
        assert ([s[0]] + rest)[1..] == rest;
      }
    }
  }

  // ---------------------------------------------------------------------
  // The URL

  lemma {:induction false} LowerAscii(s: string)
    requires IsAsciiString(s)
    ensures IsAsciiString(Lower(s))
  {
  }

  lemma {:induction false} ReplacePercent20Ascii(s: string)
    requires IsAsciiString(s)
    ensures IsAsciiString(ReplacePercent20(s))
    decreases |s|
  {
    if Percent20At(s, 0) {
      assert IsAsciiString(s[3..]) by {
        forall i | 0 <= i < |s[3..]| ensures IsAscii(s[3..][i]) {
          assert s[3..][i] == s[i + 3];
        }
      }
      ReplacePercent20Ascii(s[3..]);
    } else if s != [] {
      assert IsAsciiString(s[1..]) by {
        forall i | 0 <= i < |s[1..]| ensures IsAscii(s[1..][i]) {
          assert s[1..][i] == s[i + 1];
        }
      }
      ReplacePercent20Ascii(s[1..]);
    }
  }

  /** The first character of the replacement: `+` for a leading `%20`, the
      leading character otherwise. */
  lemma ReplacePercent20Head(s: string)
    requires s != []
    ensures ReplacePercent20(s) != []
    ensures ReplacePercent20(s)[0] == if Percent20At(s, 0) then '+' else s[0]
  {
  }

  /** After the replacement no `%20` is left, and text without one is kept as it is. */
  lemma {:induction false} ReplacePercent20Spec(s: string)
    ensures forall i: nat :: !Percent20At(ReplacePercent20(s), i)
    ensures (forall i: nat :: !Percent20At(s, i)) ==> ReplacePercent20(s) == s
    decreases |s|
  {
    if s != [] {
      var k := if Percent20At(s, 0) then 3 else 1;
      var t := s[k..];
      ReplacePercent20Spec(t);
      var r, r' := ReplacePercent20(s), ReplacePercent20(t);
      assert r == [r[0]] + r';
      forall i: nat ensures !Percent20At(r, i) {
        if i > 0 {
          assert !Percent20At(r', i - 1);
          if i + 3 <= |r| {
            assert r[i] == r'[i - 1] && r[i + 1] == r'[i] && r[i + 2] == r'[i + 1];
          }
        } else if k == 1 && Percent20At(r, 0) {
          ReplacePercent20Head(t);
          assert !Percent20At(t, 0) && t[0] == '2';
          var u := t[1..];
          assert r' == [t[0]] + ReplacePercent20(u);
          ReplacePercent20Head(u);
          assert false;
        }
      }
      if forall i: nat :: !Percent20At(s, i) {
        forall i: nat ensures !Percent20At(t, i) {
          assert !Percent20At(s, i + 1);
          if i + 3 <= |t| {
            assert t[i] == s[i + 1] && t[i + 1] == s[i + 2] && t[i + 2] == s[i + 3];
          }
        }
        assert s == [s[0]] + t;
      }
    }
  }

  /** `Percent20At` is `%20` occurring, as `includes` sees it. */
  lemma Percent20Occurs(s: string, i: nat)
    ensures Percent20At(s, i) <==> OccursAt(s, "%20", i)
  {
    if Percent20At(s, i) {
      assert s[i..i + 3] == "%20";
    }
  }

  /** The URL is the CDN base, a slash, the path and a slash when the path is
      non-empty, and then the encoded source. That last component is the
      `escapeUri` text with each `%` written `%25`; it is itself encoded
      text, and for an ASCII source decoding it twice gives the lower-cased
      source with each `%20` turned into `+`. */
  lemma GetSafeImageUrlSpec(src: string, path: Option<string>)
    ensures var component := EscapePercents(EscapeUri(ReplacePercent20(Lower(src))));
      && GetSafeImageUrl(src, path) == CdnUrl + "/" + (if Truthy(path) then path.value + "/" else "") + component
      && Encoded(component)
      && (IsAsciiString(src) ==> Decode(Decode(component)) == ReplacePercent20(Lower(src)))
  {
    var encodedSrc := ReplacePercent20(Lower(src));
    var escaped := EscapeUri(encodedSrc);
    EscapeUriEncoded(encodedSrc);
    EncodeEncoded(escaped);
    EscapePercentsEncoded(escaped);
    DecodeEscapePercents(escaped);
    if IsAsciiString(src) {
      LowerAscii(src);
      ReplacePercent20Ascii(Lower(src));
      DecodeEscapeUri(encodedSrc);
    }
  }

  lemma {:induction false} EscapePercentsEncoded(s: string)
    requires Encoded(s)
    ensures Encoded(EscapePercents(s))
    decreases |s|
  {
    if s != [] && s[0] == '%' {
      EscapePercentsTriplet(s);
      var t := EscapePercents(s[3..]);
      EscapePercentsEncoded(s[3..]);
      var x := [s[2]] + t;
      var y := [s[1]] + x;
      var e := "%25" + y;
      assert e[0] == '%' && e[1] == '2' && e[2] == '5' && e[3..] == y;
      assert y[0] == s[1] && y[1..] == x && x[0] == s[2] && x[1..] == t;
    } else if s != [] {
      var t := EscapePercents(s[1..]);
      EscapePercentsEncoded(s[1..]);
      assert ([s[0]] + t)[1..] == t;
    }
  }
}
