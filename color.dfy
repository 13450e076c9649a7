/**
 * The colour codec and the colour catalog of lib/color.ts.
 *
 * Hex strings are `seq<char>`; JavaScript numbers that the codec produces are
 * integers, so they are `int` here. The catalog is a map from a hex key
 * written without `#` to its `ColorInfo`; the order in which `Object.keys`
 * lists that map's keys is passed around explicitly as a sequence of keys.
 */
module Color {
  import opened Wrappers

  /** The three channels of the `ColorChannel` enum. */
  datatype Channel = Red | Green | Blue

  /** The `RGB` record: one number per channel. */
  datatype RGB = RGB(red: int, green: int, blue: int) {

    function Get(ch: Channel): int {
      match ch
      case Red => red
      case Green => green
      case Blue => blue
    }

    /** A copy of this colour whose channel `ch` holds `v`. */
    function With(ch: Channel, v: int): (c: RGB)
      ensures c.Get(ch) == v
      ensures forall other :: other != ch ==> c.Get(other) == Get(other)
    {
      match ch
      case Red => this.(red := v)
      case Green => this.(green := v)
      case Blue => this.(blue := v)
    }

    predicate InRange() {
      0 <= red <= 255 && 0 <= green <= 255 && 0 <= blue <= 255
    }
  }

  /** The default fallback of `hexToRgb`. */
  const Black := RGB(0, 0, 0)

  // ---------------------------------------------------------------------------
  // Hex digits

  predicate IsHexDigit(c: char) {
    '0' <= c <= '9' || 'a' <= c <= 'f' || 'A' <= c <= 'F'
  }

  predicate IsLowerHexDigit(c: char) {
    '0' <= c <= '9' || 'a' <= c <= 'f'
  }

  predicate AllHexDigits(s: string) {
    forall i :: 0 <= i < |s| ==> IsHexDigit(s[i])
  }

  predicate AllLowerHexDigits(s: string) {
    forall i :: 0 <= i < |s| ==> IsLowerHexDigit(s[i])
  }

  /** The base-16 value of one digit, either case. */
  function DigitValue(c: char): (v: nat)
    requires IsHexDigit(c)
    ensures v < 16
  {
    if '0' <= c <= '9' then c as int - '0' as int
    else if 'a' <= c <= 'f' then c as int - 'a' as int + 10
    else c as int - 'A' as int + 10
  }

  /** The lower-case digit that `Number.prototype.toString(16)` writes for `v`. */
  function HexChar(v: nat): (c: char)
    requires v < 16
    ensures IsLowerHexDigit(c) && DigitValue(c) == v
  {
    if v < 10 then ('0' as int + v) as char else ('a' as int + v - 10) as char
  }

  /** Lower-cases the letters A-F and leaves every other character alone. */
  function LowerDigit(c: char): (d: char)
    ensures IsHexDigit(c) <==> IsHexDigit(d)
    ensures IsHexDigit(c) ==> IsLowerHexDigit(d) && DigitValue(d) == DigitValue(c)
    ensures !('A' <= c <= 'F') ==> d == c
  {
    if 'A' <= c <= 'F' then (c as int - 'A' as int + 'a' as int) as char else c
  }

  /** `s` with every hex letter lower-cased. */
  function LowerHex(s: string): (t: string)
    ensures |t| == |s|
    ensures forall i :: 0 <= i < |s| ==> t[i] == LowerDigit(s[i])
  {
    seq(|s|, i requires 0 <= i < |s| => LowerDigit(s[i]))
  }

  /** `16^n`: one more than the largest value `n` hex digits can write. */
  function Pow16(n: nat): nat {
    if n == 0 then 1 else 16 * Pow16(n - 1)
  }

  /**
   * `parseInt(s, 16)` on a string of hex digits, read most significant digit
   * first. Only two-digit groups are ever parsed; on `""` this gives 0 where
   * `parseInt` gives `NaN`.
   */
  function ParseHex(s: string): nat
    requires AllHexDigits(s)
    decreases |s|
  {
    if s == [] then 0 else ParseHex(s[..|s| - 1]) * 16 + DigitValue(s[|s| - 1])
  }

  /** `n` hex digits write a value below `16^n`. */
  lemma {:induction false} ParseHexBelow(s: string)
    requires AllHexDigits(s)
    ensures ParseHex(s) < Pow16(|s|)
    decreases |s|
  {
    if s != [] {
      ParseHexBelow(s[..|s| - 1]);
    }
  }

  /** `n.toString(16)` for a non-negative integer `n`. */
  function ToHex(n: nat): (s: string)
    ensures |s| >= 1 && AllLowerHexDigits(s)
    ensures |s| == 1 <==> n < 16
    ensures n < 256 ==> |s| <= 2
    decreases n
  {
    if n < 16 then [HexChar(n)] else ToHex(n / 16) + [HexChar(n % 16)]
  }

  lemma LowerIsHex(s: string)
    requires AllLowerHexDigits(s)
    ensures AllHexDigits(s)
  {
  }

  lemma ParsePair(s: string)
    requires |s| == 2 && AllHexDigits(s)
    ensures ParseHex(s) == DigitValue(s[0]) * 16 + DigitValue(s[1]) < 256
  {
    var p := s[..1];
    assert p[..0] == [] && p[0] == s[0];
    assert ParseHex(p) == DigitValue(s[0]);
  }

  /** `parseInt(n.toString(16), 16) == n`. */
  lemma {:induction false} ParseToHex(n: nat)
    ensures AllHexDigits(ToHex(n)) && ParseHex(ToHex(n)) == n
  {
    var s := ToHex(n);
    LowerIsHex(s);
    if n < 16 {
      assert s[..0] == [];
    } else {
      ParseToHex(n / 16);
      assert s[..|s| - 1] == ToHex(n / 16);
    }
  }

  /** Parsing ignores the case of the digits. */
  lemma {:induction false} ParseHexIgnoresCase(s: string)
    requires AllHexDigits(s)
    ensures AllHexDigits(LowerHex(s)) && ParseHex(LowerHex(s)) == ParseHex(s)
    decreases |s|
  {
    var t := LowerHex(s);
    if s != [] {
      ParseHexIgnoresCase(s[..|s| - 1]);
      assert t[..|t| - 1] == LowerHex(s[..|s| - 1]);
    }
  }

  /** Two lower-case two-digit strings with the same value are the same string. */
  lemma LowerPairUnique(a: string, b: string)
    requires |a| == 2 && |b| == 2 && AllLowerHexDigits(a) && AllLowerHexDigits(b)
    requires AllHexDigits(a) && AllHexDigits(b) && ParseHex(a) == ParseHex(b)
    ensures a == b
  {
    ParsePair(a);
    ParsePair(b);
    LowerDigitUnique(a[0], b[0]);
    LowerDigitUnique(a[1], b[1]);
  }

  lemma LowerDigitUnique(c: char, d: char)
    requires IsLowerHexDigit(c) && IsLowerHexDigit(d) && DigitValue(c) == DigitValue(d)
    ensures c == d
  {
  }

  // ---------------------------------------------------------------------------
  // Codec

  /** The regular expression `/^#?([a-f\d]{2})([a-f\d]{2})([a-f\d]{2})$/i`. */
  predicate MatchesHexPattern(s: string) {
    (|s| == 6 && AllHexDigits(s)) || (|s| == 7 && s[0] == '#' && AllHexDigits(s[1..]))
  }

  /** The pattern read as a whole: six hex digits at the end, preceded by nothing or by one `#`. */
  lemma PatternShape(s: string)
    ensures MatchesHexPattern(s) <==>
      |s| >= 6 && AllHexDigits(s[|s| - 6..]) && (s[..|s| - 6] == "" || s[..|s| - 6] == "#")
  {
    assert |s| == 7 ==> s[1..] == s[|s| - 6..] && s[..1] == [s[0]];
  }

  /** The six digits the three capture groups of that pattern cover. */
  function HexDigitsOf(s: string): (d: string)
    requires MatchesHexPattern(s)
    ensures |d| == 6 && AllHexDigits(d)
  {
    s[|s| - 6..]
  }

  /**
   * `hexToRgb(hex, fallback)`: the three two-digit groups read in base 16, or
   * `fallback` itself when `hex` does not match the pattern.
   */
  function HexToRgb(hex: string, fallback: RGB): (c: RGB)
    ensures !MatchesHexPattern(hex) ==> c == fallback
    ensures MatchesHexPattern(hex) ==> c.InRange()
  {
    if MatchesHexPattern(hex) then
      var d := HexDigitsOf(hex);
      ParsePair(d[0..2]);
      ParsePair(d[2..4]);
      ParsePair(d[4..6]);
      RGB(ParseHex(d[0..2]), ParseHex(d[2..4]), ParseHex(d[4..6]))
    else
      fallback
  }

  /** `componentToHex(c)`: `c.toString(16)`, padded with a leading `0` to width 2. */
  function ComponentToHex(c: int): (s: string)
    requires 0 <= c <= 255
    ensures |s| == 2 && AllLowerHexDigits(s) && AllHexDigits(s)
    ensures ParseHex(s) == c
  {
    var hex := ToHex(c);
    ParseToHex(c);
    LowerIsHex(hex);
    if |hex| == 1 then
      var s := "0" + hex;
      assert s[..1] == "0" && s[..1][..0] == [];
      s
    else
      hex
  }

  /** `rgbToHex(rgb)`: `#` and the three components, lower-case and zero-padded. */
  function RgbToHex(rgb: RGB): (s: string)
    requires rgb.InRange()
    ensures |s| == 7 && s[0] == '#' && AllLowerHexDigits(s[1..]) && AllHexDigits(s[1..])
    ensures AllHexDigits(s[1..3]) && AllHexDigits(s[3..5]) && AllHexDigits(s[5..7])
    ensures ParseHex(s[1..3]) == rgb.red
    ensures ParseHex(s[3..5]) == rgb.green
    ensures ParseHex(s[5..7]) == rgb.blue
  {
    var r, g, b := ComponentToHex(rgb.red), ComponentToHex(rgb.green), ComponentToHex(rgb.blue);
    var d := r + g + b;
    assert AllLowerHexDigits(d) && AllHexDigits(d) by {
      forall i | 0 <= i < |d|
        ensures IsLowerHexDigit(d[i]) && IsHexDigit(d[i])
      {
        if i < 2 {
          assert d[i] == r[i];
        } else if i < 4 {
          assert d[i] == g[i - 2];
        } else {
          assert d[i] == b[i - 4];
        }
      }
    }
    var s := "#" + d;
    assert s[1..] == d;
    assert s[1..3] == r && s[3..5] == g && s[5..7] == b;
    s
  }

  /** `getChannelValue(color, ch)`: one channel of `hexToRgb(color)` with the default fallback. */
  function GetChannelValue(color: string, ch: Channel): (v: int)
    ensures 0 <= v <= 255
    ensures !MatchesHexPattern(color) ==> v == 0
  {
    HexToRgb(color, Black).Get(ch)
  }

  /** Every in-range colour survives `rgbToHex` then `hexToRgb`. */
  lemma RgbHexRoundTrip(rgb: RGB, fallback: RGB)
    requires rgb.InRange()
    ensures MatchesHexPattern(RgbToHex(rgb))
    ensures HexToRgb(RgbToHex(rgb), fallback) == rgb
  {
    var s := RgbToHex(rgb);
    var d := HexDigitsOf(s);
    assert d == s[1..];
    assert d[0..2] == s[1..3] && d[2..4] == s[3..5] && d[4..6] == s[5..7];
  }

  /** A string the pattern accepts comes back from `hexToRgb` then `rgbToHex` as `#` and its digits lower-cased. */
  lemma HexRgbRoundTrip(hex: string, fallback: RGB)
    requires MatchesHexPattern(hex)
    ensures RgbToHex(HexToRgb(hex, fallback)) == "#" + LowerHex(HexDigitsOf(hex))
  {
    var d := HexDigitsOf(hex);
    var c := HexToRgb(hex, fallback);
    assert c == RGB(ParseHex(d[0..2]), ParseHex(d[2..4]), ParseHex(d[4..6]));
    var s := RgbToHex(c);
    var low := LowerHex(d);
    PairCanonical(d[0..2], s[1..3]);
    PairCanonical(d[2..4], s[3..5]);
    PairCanonical(d[4..6], s[5..7]);
    LowerHexSlice(d, 0, 2);
    LowerHexSlice(d, 2, 4);
    LowerHexSlice(d, 4, 6);
    JoinPairs(s, low);
  }

  lemma LowerHexSlice(d: string, i: int, j: int)
    requires 0 <= i <= j <= |d|
    ensures LowerHex(d[i..j]) == LowerHex(d)[i..j]
  {
  }

  /** A `#` followed by three pairs equal to the three pairs of `low`. */
  lemma JoinPairs(s: string, low: string)
    requires |s| == 7 && s[0] == '#' && |low| == 6
    requires s[1..3] == low[0..2] && s[3..5] == low[2..4] && s[5..7] == low[4..6]
    ensures s == "#" + low
  {
    forall i | 1 <= i < 7
      ensures s[i] == low[i - 1]
    {
      if i < 3 {
        assert s[i] == s[1..3][i - 1];
      } else if i < 5 {
        assert s[i] == s[3..5][i - 3];
      } else {
        assert s[i] == s[5..7][i - 5];
      }
    }
  }

  /** The lower-cased digits `p` are the only lower-case pair that parses to `p`'s value. */
  lemma PairCanonical(p: string, q: string)
    requires |p| == 2 && AllHexDigits(p)
    requires |q| == 2 && AllLowerHexDigits(q) && AllHexDigits(q) && ParseHex(q) == ParseHex(p)
    ensures q == LowerHex(p)
  {
    ParseHexIgnoresCase(p);
    LowerPairUnique(q, LowerHex(p));
  }

  /** Lower-casing the hex letters does not change whether the pattern matches. */
  lemma MatchIgnoresCase(hex: string)
    ensures MatchesHexPattern(LowerHex(hex)) <==> MatchesHexPattern(hex)
  {
    var t := LowerHex(hex);
    if |hex| == 7 {
      assert t[1..] == LowerHex(hex[1..]);
    }
  }

  /** Upper- and lower-case digits give the same colour, and the same fallback decision. */
  lemma HexToRgbIgnoresCase(hex: string, fallback: RGB)
    ensures MatchesHexPattern(LowerHex(hex)) <==> MatchesHexPattern(hex)
    ensures HexToRgb(LowerHex(hex), fallback) == HexToRgb(hex, fallback)
  {
    MatchIgnoresCase(hex);
    if MatchesHexPattern(hex) {
      var d := HexDigitsOf(hex);
      var e := HexDigitsOf(LowerHex(hex));
      assert e == LowerHex(d);
      PairIgnoresCase(d, e, 0);
      PairIgnoresCase(d, e, 2);
      PairIgnoresCase(d, e, 4);
    }
  }

  lemma PairIgnoresCase(d: string, e: string, i: nat)
    requires |d| == 6 && AllHexDigits(d) && e == LowerHex(d) && i <= 4
    ensures AllHexDigits(e[i..i + 2]) && ParseHex(e[i..i + 2]) == ParseHex(d[i..i + 2])
  {
    assert e[i..i + 2] == LowerHex(d[i..i + 2]);
    ParseHexIgnoresCase(d[i..i + 2]);
  }

  /** Reading a channel of a canonical code gives that channel back. */
  lemma ChannelOfCanonical(rgb: RGB, ch: Channel)
    requires rgb.InRange()
    ensures GetChannelValue(RgbToHex(rgb), ch) == rgb.Get(ch)
  {
    RgbHexRoundTrip(rgb, Black);
  }

  // ---------------------------------------------------------------------------
  // Catalog

  /** One description of a catalog colour: a title and, for brand colours, a URL. */
  datatype Desc = Desc(title: string, brandUrl: Option<string>)

  /** `ColorInfo`: the `#`-prefixed code and the descriptions in merge order. */
  datatype ColorInfo = ColorInfo(code: string, desc: seq<Desc>)

  /** One entry of the brand table: its title, its optional URL and the hex keys it lists. */
  datatype Brand = Brand(title: string, brandUrl: Option<string>, colors: seq<string>)

  /** One entry of the ZhongGuoSe table: a hex key and its traditional name. */
  datatype NamedColor = NamedColor(key: string, name: string)

  /** `allColors`: hex key without `#` to its information. */
  type Catalog = map<string, ColorInfo>

  /** The description a brand gives each of its colours; a missing or empty URL becomes `""`. */
  function BrandDesc(b: Brand): Desc {
    Desc("Brand color for " + b.title, Some(if b.brandUrl.Some? then b.brandUrl.value else ""))
  }

  /** The entry the brand loop writes for key `c`, replacing whatever was there. */
  function BrandEntry(b: Brand, c: string): ColorInfo {
    ColorInfo("#" + c, [BrandDesc(b)])
  }

  /** `m` after the inner brand loop has visited the colours `cs` of brand `b`. */
  function WithBrandColors(m: Catalog, b: Brand, cs: seq<string>): Catalog
    decreases |cs|
  {
    if cs == [] then m
    else WithBrandColors(m, b, cs[..|cs| - 1])[cs[|cs| - 1] := BrandEntry(b, cs[|cs| - 1])]
  }

  /** The accumulator of the `reduce` over the brand table. */
  function BrandCatalog(brands: seq<Brand>): Catalog
    decreases |brands|
  {
    if brands == [] then map[]
    else
      var b := brands[|brands| - 1];
      WithBrandColors(BrandCatalog(brands[..|brands| - 1]), b, b.colors)
  }

  /** One step of the ZhongGuoSe loop: create the entry if absent, then push the name. */
  function AddName(m: Catalog, n: NamedColor): Catalog {
    var info := if n.key in m then m[n.key] else ColorInfo("#" + n.key, []);
    m[n.key := info.(desc := info.desc + [Desc(n.name, None)])]
  }

  /** `m` after the ZhongGuoSe loop has visited `names`. */
  function WithNames(m: Catalog, names: seq<NamedColor>): Catalog
    decreases |names|
  {
    if names == [] then m else AddName(WithNames(m, names[..|names| - 1]), names[|names| - 1])
  }

  /**
   * The catalog that lib/color.ts builds from the two tables: a key is present
   * exactly when a brand lists it or the ZhongGuoSe table names it, and every
   * entry's code is `#` followed by its key.
   */
  function CatalogOf(brands: seq<Brand>, names: seq<NamedColor>): (all: Catalog)
    ensures forall k :: k in all <==> LastBrandListing(brands, k).Some? || NameDescs(names, k) != []
    ensures CodesMatchKeys(all)
  {
    var all := WithNames(BrandCatalog(brands), names);
    assert forall k :: (k in all <==> LastBrandListing(brands, k).Some? || NameDescs(names, k) != []) &&
                       (k in all ==> all[k].code == "#" + k) by {
      forall k
        ensures k in all <==> LastBrandListing(brands, k).Some? || NameDescs(names, k) != []
        ensures k in all ==> all[k].code == "#" + k
      {
        BrandCatalogEntry(brands, k);
        WithNamesEntry(BrandCatalog(brands), names, k);
      }
    }
    all
  }

  /** Builds the catalog with the two loops of lib/color.ts. */
  method BuildCatalog(brands: seq<Brand>, names: seq<NamedColor>) returns (all: Catalog)
    ensures all == CatalogOf(brands, names)
  {
    all := map[];
    for i := 0 to |brands|
      invariant all == BrandCatalog(brands[..i])
    {
      var entry := brands[i];
      assert brands[..i + 1][..i] == brands[..i];
      for j := 0 to |entry.colors|
        invariant all == WithBrandColors(BrandCatalog(brands[..i]), entry, entry.colors[..j])
      {
        var c := entry.colors[j];
        assert entry.colors[..j + 1][..j] == entry.colors[..j];
        all := all[c := ColorInfo("#" + c, [BrandDesc(entry)])];
      }
      assert entry.colors[..|entry.colors|] == entry.colors;
    }
    assert brands[..|brands|] == brands;
    for i := 0 to |names|
      invariant all == WithNames(BrandCatalog(brands), names[..i])
    {
      var c, name := names[i].key, names[i].name;
      assert names[..i + 1][..i] == names[..i];
      var info := if c in all then all[c] else ColorInfo("#" + c, []);
      all := all[c := info.(desc := info.desc + [Desc(name, None)])];
    }
    assert names[..|names|] == names;
  }

  /** The last brand of the table whose colour list contains `k`, if any. */
  function LastBrandListing(brands: seq<Brand>, k: string): Option<Brand>
    decreases |brands|
  {
    if brands == [] then None
    else if k in brands[|brands| - 1].colors then Some(brands[|brands| - 1])
    else LastBrandListing(brands[..|brands| - 1], k)
  }

  /** The descriptions the ZhongGuoSe table contributes to key `k`, in table order. */
  function NameDescs(names: seq<NamedColor>, k: string): seq<Desc>
    decreases |names|
  {
    if names == [] then []
    else
      var n := names[|names| - 1];
      NameDescs(names[..|names| - 1], k) + (if n.key == k then [Desc(n.name, None)] else [])
  }

  /** The brand part of key `k`'s descriptions: the last listing brand's, or none. */
  function BrandDescs(brands: seq<Brand>, k: string): seq<Desc> {
    match LastBrandListing(brands, k)
    case Some(b) => [BrandDesc(b)]
    case None => []
  }

  lemma {:induction false} WithBrandColorsEntry(m: Catalog, b: Brand, cs: seq<string>, k: string)
    ensures k in WithBrandColors(m, b, cs) <==> k in m || k in cs
    ensures k in WithBrandColors(m, b, cs) ==>
      WithBrandColors(m, b, cs)[k] == if k in cs then BrandEntry(b, k) else m[k]
    decreases |cs|
  {
    if cs != [] {
      var init := cs[..|cs| - 1];
      WithBrandColorsEntry(m, b, init, k);
      assert cs == init + [cs[|cs| - 1]];
    }
  }

  /** After the brand loop a key is present exactly when some brand lists it, and holds the last such brand's entry. */
  lemma {:induction false} BrandCatalogEntry(brands: seq<Brand>, k: string)
    ensures k in BrandCatalog(brands) <==> LastBrandListing(brands, k).Some?
    ensures k in BrandCatalog(brands) ==>
      BrandCatalog(brands)[k] == BrandEntry(LastBrandListing(brands, k).value, k)
    decreases |brands|
  {
    if brands != [] {
      var b := brands[|brands| - 1];
      BrandCatalogEntry(brands[..|brands| - 1], k);
      WithBrandColorsEntry(BrandCatalog(brands[..|brands| - 1]), b, b.colors, k);
    }
  }

  lemma {:induction false} WithNamesEntry(m: Catalog, names: seq<NamedColor>, k: string)
    ensures k in WithNames(m, names) <==> k in m || NameDescs(names, k) != []
    ensures k in WithNames(m, names) ==>
      WithNames(m, names)[k] ==
        if k in m then m[k].(desc := m[k].desc + NameDescs(names, k))
        else ColorInfo("#" + k, NameDescs(names, k))
    decreases |names|
  {
    if names != [] {
      WithNamesEntry(m, names[..|names| - 1], k);
    }
  }

  /**
   * The merge rule of lib/color.ts:27-42 key by key: a key is in the catalog
   * exactly when a brand lists it or the ZhongGuoSe table names it; its code is
   * `#` and the key; its descriptions are the last listing brand's one (earlier
   * brands are overwritten) followed by every ZhongGuoSe name for it in order.
   */
  lemma CatalogEntry(brands: seq<Brand>, names: seq<NamedColor>, k: string)
    ensures k in CatalogOf(brands, names) <==>
      LastBrandListing(brands, k).Some? || NameDescs(names, k) != []
    ensures k in CatalogOf(brands, names) ==>
      CatalogOf(brands, names)[k] == ColorInfo("#" + k, BrandDescs(brands, k) + NameDescs(names, k))
  {
    var m := BrandCatalog(brands);
    BrandCatalogEntry(brands, k);
    WithNamesEntry(m, names, k);
    assert CatalogOf(brands, names) == WithNames(m, names);
  }

  /** Every entry's code is `#` followed by its key. */
  predicate CodesMatchKeys(cat: Catalog) {
    forall k :: k in cat ==> cat[k].code == "#" + k
  }

  /** The ZhongGuoSe table is an object, so its keys are distinct. */
  predicate DistinctKeys(names: seq<NamedColor>) {
    forall i, j :: 0 <= i < j < |names| ==> names[i].key != names[j].key
  }

  lemma {:induction false} NameDescsOfDistinct(names: seq<NamedColor>, i: nat)
    requires DistinctKeys(names) && i < |names|
    ensures NameDescs(names, names[i].key) == [Desc(names[i].name, None)]
    decreases |names|
  {
    var init := names[..|names| - 1];
    if i == |names| - 1 {
      NoNameDescs(init, names[i].key);
    } else {
      NameDescsOfDistinct(init, i);
    }
  }

  lemma {:induction false} NoNameDescs(names: seq<NamedColor>, k: string)
    requires forall i :: 0 <= i < |names| ==> names[i].key != k
    ensures NameDescs(names, k) == []
    decreases |names|
  {
    if names != [] {
      NoNameDescs(names[..|names| - 1], k);
    }
  }

  /**
   * A key listed by a brand and named in the ZhongGuoSe table has exactly two
   * descriptions: the last listing brand's, then the traditional name.
   */
  lemma KeyInBothTables(brands: seq<Brand>, names: seq<NamedColor>, i: nat, b: Brand)
    requires DistinctKeys(names) && i < |names|
    requires LastBrandListing(brands, names[i].key) == Some(b)
    ensures names[i].key in CatalogOf(brands, names)
    ensures CatalogOf(brands, names)[names[i].key].desc == [BrandDesc(b), Desc(names[i].name, None)]
  {
    CatalogEntry(brands, names, names[i].key);
    NameDescsOfDistinct(names, i);
  }

  // ---------------------------------------------------------------------------
  // Lookups

  /** `keys` lists every key of `cat` once: the role `Object.keys(allColors)` plays. */
  predicate Enumerates(keys: seq<string>, cat: Catalog) {
    (forall i, j :: 0 <= i < j < |keys| ==> keys[i] != keys[j]) &&
    (forall k :: k in keys ==> k in cat) &&
    (forall k :: k in cat ==> k in keys)
  }

  /** `keys.filter(code => !toExclude.includes(code))`. */
  function Filter(keys: seq<string>, toExclude: seq<string>): (pool: seq<string>)
    ensures forall k :: k in pool <==> k in keys && k !in toExclude
    ensures |pool| <= |keys|
    decreases |keys|
  {
    if keys == [] then []
    else if keys[0] in toExclude then Filter(keys[1..], toExclude)
    else [keys[0]] + Filter(keys[1..], toExclude)
  }

  /** `Math.floor(rnd * n)` with `rnd` the value of `Math.random()`. */
  function RandomIndex(rnd: real, n: nat): (i: int)
    requires 0.0 <= rnd < 1.0
    ensures n > 0 ==> 0 <= i < n
  {
    ScaledBelow(rnd, n);
    (rnd * n as real).Floor
  }

  lemma ScaledBelow(rnd: real, n: nat)
    requires 0.0 <= rnd < 1.0
    ensures 0.0 <= rnd * n as real
    ensures n > 0 ==> rnd * n as real < n as real
  {
    if n > 0 {
      assert (1.0 - rnd) * n as real > 0.0;
    }
  }

  /** Each of the `n` positions is chosen by an interval of `rnd` of length `1/n`: the pick is uniform. */
  lemma RandomIndexInterval(rnd: real, n: nat, i: nat)
    requires 0.0 <= rnd < 1.0 && i < n
    requires i as real / n as real <= rnd < (i + 1) as real / n as real
    ensures RandomIndex(rnd, n) == i
  {
    var lo, hi := i as real / n as real, (i + 1) as real / n as real;
    ScaleMonotone(lo, rnd, n as real);
    ScaleMonotone(rnd, hi, n as real);
    assert lo * n as real == i as real;
    assert hi * n as real == (i + 1) as real;
  }

  lemma ScaleMonotone(x: real, y: real, k: real)
    requires x <= y && k > 0.0
    ensures x * k <= y * k
    ensures x < y ==> x * k < y * k
  {
    assert y * k - x * k == (y - x) * k;
  }

  /**
   * `pickRandomColor(toExclude)` with `Math.random()` injected as `rnd`: the
   * entry of a key outside `toExclude`, or `None` (JavaScript's `undefined`)
   * when every key is excluded.
   */
  function PickRandomColor(cat: Catalog, keys: seq<string>, toExclude: seq<string>, rnd: real): (r: Option<ColorInfo>)
    requires Enumerates(keys, cat) && 0.0 <= rnd < 1.0
    ensures r.Some? <==> exists k :: k in cat && k !in toExclude
    ensures r.Some? ==> exists k :: k in cat && k !in toExclude && r.value == cat[k]
  {
    var pool := Filter(keys, toExclude);
    if pool == [] then None
    else
      assert pool[RandomIndex(rnd, |pool|)] in pool;
      Some(cat[pool[RandomIndex(rnd, |pool|)]])
  }

  lemma {:induction false} FilterNothing(keys: seq<string>)
    ensures Filter(keys, []) == keys
    decreases |keys|
  {
    if keys != [] {
      FilterNothing(keys[1..]);
    }
  }

  /**
   * With no exclusion every key can come out, the current colour's included:
   * the key at position `i` of `keys` is picked when `Math.random()` yields `i/n`.
   */
  lemma PickCanReturnAnyKey(cat: Catalog, keys: seq<string>, i: nat)
    requires Enumerates(keys, cat) && i < |keys|
    ensures 0.0 <= i as real / |keys| as real < 1.0
    ensures PickRandomColor(cat, keys, [], i as real / |keys| as real) == Some(cat[keys[i]])
  {
    var n := |keys|;
    var rnd := i as real / n as real;
    FractionBelowOne(i, n);
    RandomIndexInterval(rnd, n, i);
    FilterNothing(keys);
    assert Filter(keys, [])[RandomIndex(rnd, n)] == keys[i];
  }

  lemma FractionBelowOne(i: nat, n: nat)
    requires i < n
    ensures 0.0 <= i as real / n as real < 1.0
    ensures i as real / n as real < (i + 1) as real / n as real
  {
    var rnd := i as real / n as real;
    var next := (i + 1) as real / n as real;
    assert rnd * n as real == i as real;
    assert next * n as real == (i + 1) as real;
    if next <= rnd {
      ScaleMonotone(next, rnd, n as real);
    }
    if rnd >= 1.0 {
      ScaleMonotone(1.0, rnd, n as real);
    }
  }

  /** The key `getMatchedColor` looks up: `code.substring(1)`, whatever the first character is. */
  function MatchKey(code: string): string {
    if |code| == 0 then "" else code[1..]
  }

  /** `substring(1)` drops exactly the first character, and gives `""` on `""`. */
  lemma MatchKeyDropsFirst(code: string)
    ensures code == [] ==> MatchKey(code) == []
    ensures code != [] ==> code == [code[0]] + MatchKey(code)
  {
  }

  /** `getMatchedColor(code)`: the entry under `code` minus its first character, if there is one. */
  function GetMatchedColor(cat: Catalog, code: string): (r: Option<ColorInfo>)
    ensures r.Some? <==> MatchKey(code) in cat
    ensures r.Some? ==> r.value == cat[MatchKey(code)]
  {
    if MatchKey(code) in cat then Some(cat[MatchKey(code)]) else None
  }

  /** Looking up an entry's own code finds that entry. */
  lemma MatchedOwnCode(cat: Catalog, k: string)
    requires CodesMatchKeys(cat) && k in cat
    ensures GetMatchedColor(cat, cat[k].code) == Some(cat[k])
  {
    assert MatchKey(cat[k].code) == k;
  }

  /** Keys shaped like canonical codes: six lower-case hex digits. */
  predicate CanonicalKeys(cat: Catalog) {
    forall k :: k in cat ==> |k| == 6 && AllLowerHexDigits(k)
  }

  /**
   * The lookup is exact and case-sensitive: with canonical keys, a `#`-prefixed
   * code holding an upper-case digit matches nothing, even when its lower-case
   * form would.
   */
  lemma UpperCaseCodeUnmatched(cat: Catalog, code: string, i: nat)
    requires CanonicalKeys(cat)
    requires 1 <= i < |code| && 'A' <= code[i] <= 'F'
    ensures GetMatchedColor(cat, code) == None
  {
    var k := MatchKey(code);
    assert k[i - 1] == code[i];
  }

  /** The first character is dropped unconditionally: a bare six-digit key never matches a canonical catalog. */
  lemma BareKeyUnmatched(cat: Catalog, code: string)
    requires CanonicalKeys(cat) && |code| == 6
    ensures GetMatchedColor(cat, code) == None
  {
  }
}
