/**
 * The colour session of App.tsx: the state cells that its handlers and
 * effects overwrite, as the fields of a `Session` object.
 *
 * Each React state update is a field assignment. An effect runs synchronously
 * right after the update that changes one of its dependencies, in the order
 * the effects are declared (the adjust effect of lines 70-89 before the commit
 * effect of lines 107-111). Setting a cell to the value it already holds
 * changes nothing and runs no effect, as React's state hook does.
 *
 * App.tsx reads the channels of `hexToRgb`'s result as `.r`, `.g` and `.b`;
 * they are taken here as the red, green and blue channels of lib/color.ts.
 */
module App {
  import opened Wrappers
  import opened Color
  import Updator

  function Max(a: int, b: int): int {
    if a > b then a else b
  }

  function Min(a: int, b: int): int {
    if a < b then a else b
  }

  function IntAbs(x: int): int {
    if x < 0 then -x else x
  }

  /**
   * `ensureColorBoundary(code, step)`: `code + step` clamped to [0, 255]. The
   * source multiplies by a sign that is -1 for a zero step, which is harmless
   * because the magnitude it multiplies is then 0.
   */
  function EnsureColorBoundary(code: int, step: int): (r: int)
    ensures 0 <= r <= 255
    ensures 0 <= code + step <= 255 ==> r == code + step
    ensures code + step < 0 ==> r == 0
    ensures code + step > 255 ==> r == 255
  {
    var sign := if step > 0 then 1 else -1;
    Max(Min(255, code + sign * Max(IntAbs(step), 0)), 0)
  }

  /** A zero step leaves an in-range channel value alone. */
  lemma ZeroStepKeepsCode(code: int)
    requires 0 <= code <= 255
    ensures EnsureColorBoundary(code, 0) == code
  {
  }

  /** The `rgb` copy of lines 72-84: `base` with the selected channel moved by `diff` and clamped. */
  function AdjustedColor(base: RGB, ch: Channel, diff: int): (c: RGB)
    ensures c.Get(ch) == EnsureColorBoundary(base.Get(ch), diff)
    ensures forall other :: other != ch ==> c.Get(other) == base.Get(other)
    ensures base.InRange() ==> c.InRange()
  {
    base.With(ch, EnsureColorBoundary(base.Get(ch), diff))
  }

  /**
   * The colour code the adjust effect displays for committed code `committed`,
   * channel `ch` and delta `diff`: canonical, with channel `ch` of the committed
   * colour moved by `diff` and clamped, and the other two channels copied.
   */
  function DragColor(committed: string, ch: Channel, diff: int): (hex: string)
    ensures MatchesHexPattern(hex) && |hex| == 7 && hex[0] == '#' && AllLowerHexDigits(hex[1..])
    ensures GetChannelValue(hex, ch) == EnsureColorBoundary(GetChannelValue(committed, ch), diff)
    ensures forall other :: other != ch ==> GetChannelValue(hex, other) == GetChannelValue(committed, other)
  {
    var c := AdjustedColor(HexToRgb(committed, Black), ch, diff);
    RgbHexRoundTrip(c, Black);
    RgbToHex(c)
  }

  /** Raising green by 40 in `#1a2b3c` displays `#1a533c`: 0x2b + 40 = 0x53. */
  lemma GreenPlusForty()
    ensures DragColor("#1a2b3c", Green, 40) == "#1a533c"
  {
    ParseExample();
    var a := AdjustedColor(RGB(0x1a, 0x2b, 0x3c), Green, 40);
    assert a == RGB(0x1a, 0x53, 0x3c);
    PrintExample();
  }

  lemma ParseExample()
    ensures HexToRgb("#1a2b3c", Black) == RGB(0x1a, 0x2b, 0x3c)
  {
    var d := HexDigitsOf("#1a2b3c");
    assert d == "1a2b3c";
    assert d[0..2] == "1a" && d[2..4] == "2b" && d[4..6] == "3c";
    ParsePair("1a");
    ParsePair("2b");
    ParsePair("3c");
  }

  lemma PrintExample()
    ensures RgbToHex(RGB(0x1a, 0x53, 0x3c)) == "#1a533c"
  {
    assert ToHex(0x1a) == ToHex(1) + [HexChar(10)] == "1a";
    assert ToHex(0x53) == ToHex(5) + [HexChar(3)] == "53";
    assert ToHex(0x3c) == ToHex(3) + [HexChar(12)] == "3c";
  }

  /** The `selectedChannel` cell: the channel a drag adjusts and the value read when it was chosen. */
  datatype SelectedChannel = SelectedChannel(name: Channel, value: int)

  /** The titles of a colour's descriptions, in order. */
  function Titles(desc: seq<Desc>): (ts: seq<string>)
    ensures |ts| == |desc|
    ensures forall i :: 0 <= i < |desc| ==> ts[i] == desc[i].title
  {
    seq(|desc|, i requires 0 <= i < |desc| => desc[i].title)
  }

  class Session {
    /** `allColors` and the order in which `Object.keys` lists it. */
    const catalog: Catalog
    const colorKeys: seq<string>
    /** `Dimensions.get("window")`. */
    const windowWidth: real
    const windowHeight: real

    var matchedColor: Option<ColorInfo>
    /** The displayed colour. */
    var bgColor: string
    /** The committed colour (`commitedBgColor`). */
    var committedBgColor: string
    var adjusting: bool
    var channelValueDiff: int
    var selectedChannel: SelectedChannel

    /**
     * What the constructor establishes about the constant catalog: `colorKeys`
     * lists its keys, it is not empty, and every code is `#` and its key.
     */
    ghost predicate CatalogReady() {
      Enumerates(colorKeys, catalog) && catalog != map[] && CodesMatchKeys(catalog)
    }

    /** What the adjust effect and every handler keep: the matched entry is the lookup of the displayed code. */
    ghost predicate Wired()
      reads this
    {
      windowWidth > 0.0 && windowHeight > 0.0 &&
      matchedColor == GetMatchedColor(catalog, bgColor)
    }

    /** Between events: in addition, at rest the committed colour is the displayed one. */
    ghost predicate Valid()
      reads this
    {
      Wired() && (!adjusting ==> committedBgColor == bgColor)
    }

    /**
     * The module-level catalog construction, the random start colour of line 23
     * (`Math.random()` given as `rnd`), the initial state of lines 34-41 and the
     * first run of both effects.
     */
    constructor (brands: seq<Brand>, names: seq<NamedColor>, colorKeys: seq<string>,
                 windowWidth: real, windowHeight: real, rnd: real)
      requires Enumerates(colorKeys, CatalogOf(brands, names)) && CatalogOf(brands, names) != map[]
      requires windowWidth > 0.0 && windowHeight > 0.0 && 0.0 <= rnd < 1.0
      ensures Valid() && CatalogReady()
      ensures catalog == CatalogOf(brands, names) && this.colorKeys == colorKeys
      ensures this.windowWidth == windowWidth && this.windowHeight == windowHeight
      ensures matchedColor == PickRandomColor(catalog, colorKeys, [], rnd)
      ensures exists k :: k in catalog && matchedColor == Some(catalog[k]) && bgColor == "#" + k
      ensures committedBgColor == bgColor && !adjusting && channelValueDiff == 0
      ensures selectedChannel == SelectedChannel(Red, GetChannelValue(bgColor, Red))
    {
      var all := BuildCatalog(brands, names);
      ghost var some :| some in all;
      var randomColor := PickRandomColor(all, colorKeys, [], rnd);
      ghost var k :| k in all && randomColor.value == all[k];
      MatchedOwnCode(all, k);
      catalog := all;
      this.colorKeys := colorKeys;
      this.windowWidth := windowWidth;
      this.windowHeight := windowHeight;
      matchedColor := randomColor;
      bgColor := randomColor.value.code;
      committedBgColor := randomColor.value.code;
      adjusting := false;
      channelValueDiff := 0;
      var currentColor := HexToRgb(randomColor.value.code, Black);
      selectedChannel := SelectedChannel(Red, currentColor.red);
    }

    /**
     * The effect of lines 70-89: while adjusting, copy the committed colour,
     * move the selected channel by the latest delta, and display the result
     * and its catalog match.
     */
    method AdjustEffect()
      requires Wired()
      modifies this`bgColor, this`matchedColor
      ensures Wired()
      ensures adjusting ==> bgColor == DragColor(committedBgColor, selectedChannel.name, channelValueDiff)
      ensures !adjusting ==> bgColor == old(bgColor) && matchedColor == old(matchedColor)
    {
      if !adjusting {
        return;
      }
      var currentColor := HexToRgb(committedBgColor, Black);
      var rgb := currentColor;
      match selectedChannel.name {
        case Red => rgb := rgb.(red := EnsureColorBoundary(rgb.red, channelValueDiff));
        case Green => rgb := rgb.(green := EnsureColorBoundary(rgb.green, channelValueDiff));
        case Blue => rgb := rgb.(blue := EnsureColorBoundary(rgb.blue, channelValueDiff));
      }
      var colorCode := RgbToHex(rgb);
      bgColor := colorCode;
      matchedColor := GetMatchedColor(catalog, colorCode);
    }

    /** The effect of lines 107-111: at rest, commit the displayed colour. */
    method CommitEffect()
      requires Wired()
      modifies this`committedBgColor
      ensures Valid()
      ensures committedBgColor == if adjusting then old(committedBgColor) else bgColor
    {
      if !adjusting {
        committedBgColor := bgColor;
      }
    }

    /**
     * `onStart` (line 132). When it raises the flag, the adjust effect shows
     * the committed colour moved by the delta the previous drag left behind,
     * since nothing resets `channelValueDiff`; the committed colour stays.
     */
    method Start()
      requires Valid()
      modifies this`adjusting, this`bgColor, this`matchedColor, this`committedBgColor
      ensures Valid() && adjusting
      ensures committedBgColor == old(committedBgColor)
      ensures old(adjusting) ==> bgColor == old(bgColor) && matchedColor == old(matchedColor)
      ensures !old(adjusting) ==> bgColor == DragColor(committedBgColor, selectedChannel.name, channelValueDiff)
    {
      if !adjusting {
        adjusting := true;
        AdjustEffect();
        CommitEffect();
      }
    }

    /**
     * `onUpdate` (line 131): store the delta. While adjusting, a new delta
     * redisplays the committed colour moved by that delta alone; deltas do not
     * accumulate. The commit effect that follows a new display does nothing
     * while adjusting, so the committed colour stays.
     */
    method Update(diff: int)
      requires Valid()
      modifies this`channelValueDiff, this`bgColor, this`matchedColor
      ensures Valid() && channelValueDiff == diff
      ensures adjusting && diff != old(channelValueDiff) ==>
        bgColor == DragColor(committedBgColor, selectedChannel.name, diff)
      ensures !(adjusting && diff != old(channelValueDiff)) ==>
        bgColor == old(bgColor) && matchedColor == old(matchedColor)
    {
      if diff != channelValueDiff {
        channelValueDiff := diff;
        AdjustEffect();
      }
    }

    /**
     * `onComplete` (line 133): lower the flag; the adjust effect returns at
     * once and the commit effect makes the displayed colour the committed one.
     */
    method Complete()
      requires Valid()
      modifies this`adjusting, this`bgColor, this`matchedColor, this`committedBgColor
      ensures Valid() && !adjusting
      ensures committedBgColor == old(bgColor)
      ensures bgColor == old(bgColor) && matchedColor == old(matchedColor)
    {
      if adjusting {
        adjusting := false;
        AdjustEffect();
        CommitEffect();
      }
    }

    /** `onNameChange(channel)` (lines 43-57): select `channel` and record its value in the displayed colour. */
    method NameChange(channel: Channel)
      requires Valid()
      modifies this`selectedChannel
      ensures Valid()
      ensures selectedChannel == SelectedChannel(channel, GetChannelValue(bgColor, channel))
    {
      var currentColor := HexToRgb(bgColor, Black);
      var val := 0;
      match channel {
        case Red => val := currentColor.red;
        case Green => val := currentColor.green;
        case Blue => val := currentColor.blue;
      }
      selectedChannel := selectedChannel.(name := channel, value := val);
    }

    /**
     * `onRefresh` (lines 60-68) with its wait left out and `Math.random()`
     * given as `rnd`: display a catalog colour picked with no exclusion, which
     * may be the current one. At rest the commit effect commits it; the
     * selected channel and the delta are kept.
     */
    method Refresh(rnd: real)
      requires Valid() && CatalogReady() && 0.0 <= rnd < 1.0
      modifies this`matchedColor, this`bgColor, this`committedBgColor
      ensures Valid()
      ensures matchedColor == PickRandomColor(catalog, colorKeys, [], rnd)
      ensures exists k :: k in catalog && matchedColor == Some(catalog[k]) && bgColor == "#" + k
      ensures committedBgColor == if adjusting then old(committedBgColor) else bgColor
    {
      ghost var some :| some in catalog;
      var randomColor := PickRandomColor(catalog, colorKeys, [], rnd);
      ghost var k :| k in catalog && randomColor.value == catalog[k];
      MatchedOwnCode(catalog, k);
      matchedColor := randomColor;
      bgColor := randomColor.value.code;
      CommitEffect();
    }

    /**
     * A pan event as `ChannelUpdator` forwards it: a grant starts, a move
     * reports `getDiff` of the cumulative offsets, and a release or a
     * termination (components/PanArea.tsx:26-31) completes.
     */
    method HandlePan(e: Updator.PanEvent)
      requires Valid()
      modifies this`adjusting, this`channelValueDiff, this`bgColor, this`matchedColor, this`committedBgColor
      ensures Valid()
      ensures e.Grant? ==> adjusting && committedBgColor == old(committedBgColor) && channelValueDiff == old(channelValueDiff)
      ensures e.Grant? && !old(adjusting) ==>
        bgColor == DragColor(committedBgColor, selectedChannel.name, channelValueDiff)
      ensures e.Grant? && old(adjusting) ==> bgColor == old(bgColor) && matchedColor == old(matchedColor)
      ensures e.Move? ==>
        adjusting == old(adjusting) && committedBgColor == old(committedBgColor) &&
        channelValueDiff == Updator.GetDiff(e.dx, e.dy, windowWidth, windowHeight)
      ensures e.Move? && adjusting && channelValueDiff != old(channelValueDiff) ==>
        bgColor == DragColor(committedBgColor, selectedChannel.name, channelValueDiff)
      ensures e.Move? && !(old(adjusting) && channelValueDiff != old(channelValueDiff)) ==>
        bgColor == old(bgColor) && matchedColor == old(matchedColor)
      ensures e.Release? || e.Terminate? ==>
        !adjusting && committedBgColor == old(bgColor) && bgColor == old(bgColor) && channelValueDiff == old(channelValueDiff)
    {
      match e {
        case Grant =>
          assert Updator.Route(e, windowWidth, windowHeight) == Updator.OnStart;
          Start();
        case Move(dx, dy) =>
          var diff := Updator.GetDiff(dx, dy, windowWidth, windowHeight);
          assert Updator.Route(e, windowWidth, windowHeight) == Updator.OnUpdate(diff);
          Update(diff);
        case Release =>
          assert Updator.Route(e, windowWidth, windowHeight) == Updator.OnComplete;
          Complete();
        case Terminate =>
          assert Updator.Route(e, windowWidth, windowHeight) == Updator.OnComplete;
          Complete();
      }
    }

    /** The colour name line of line 146: the titles of the matched entry, shown only at rest. */
    function ShownTitles(): (r: Option<seq<string>>)
      reads this
      ensures r.Some? <==> !adjusting && matchedColor.Some?
      ensures r.Some? ==> r.value == Titles(matchedColor.value.desc)
    {
      if !adjusting && matchedColor.Some? then Some(Titles(matchedColor.value.desc)) else None
    }
  }

  /**
   * A drag at rest with two moves and a release: the committed colour ends as
   * the old committed colour moved by the last delta alone, and the match
   * follows it.
   */
  method DragTwice(s: Session, d1: int, d2: int)
    requires s.Valid() && !s.adjusting
    modifies s
    ensures s.Valid() && !s.adjusting
    ensures s.committedBgColor == s.bgColor
    ensures s.bgColor == DragColor(old(s.committedBgColor), old(s.selectedChannel.name), d2)
    ensures s.matchedColor == GetMatchedColor(s.catalog, s.bgColor)
  {
    ghost var committed, ch := s.committedBgColor, s.selectedChannel.name;
    s.Start();
    MoveWhileAdjusting(s, d1);
    MoveWhileAdjusting(s, d2);
    assert s.bgColor == DragColor(committed, ch, d2);
    s.Complete();
  }

  /**
   * A move during a drag whose display already shows the committed colour
   * moved by the stored delta: afterwards it shows the committed colour moved
   * by the new delta, whether or not the delta changed.
   */
  method MoveWhileAdjusting(s: Session, d: int)
    requires s.Valid() && s.adjusting
    requires s.bgColor == DragColor(s.committedBgColor, s.selectedChannel.name, s.channelValueDiff)
    modifies s
    ensures s.Valid() && s.adjusting && s.channelValueDiff == d
    ensures s.committedBgColor == old(s.committedBgColor) && s.selectedChannel == old(s.selectedChannel)
    ensures s.bgColor == DragColor(s.committedBgColor, s.selectedChannel.name, d)
  {
    s.Update(d);
  }

  /**
   * A grant and a release with no move in between commits the committed
   * colour moved by the delta of the previous drag.
   */
  method StartAndRelease(s: Session)
    requires s.Valid() && !s.adjusting
    modifies s
    ensures s.Valid() && !s.adjusting
    ensures s.committedBgColor == DragColor(old(s.committedBgColor), old(s.selectedChannel.name), old(s.channelValueDiff))
  {
    s.HandlePan(Updator.Grant);
    s.HandlePan(Updator.Terminate);
  }
}
