# Colour-state engine of beautifulcolors, in Dafny

This project models the colour-state engine of the beautifulcolors colour explorer.
A user drags across the screen to move one channel (red, green or blue) of the background colour.
The app shows the live colour and, at rest, the names of the matching catalog colour.

It has three parts:

- **`Color`** (`color.dfy`, from `lib/color.ts`). The hex codec is `HexToRgb`, `ComponentToHex` and `RgbToHex`. `ParseHex` and `ToHex` model `parseInt(_, 16)` and `toString(16)`. The file also builds the catalog from the brand table and the ZhongGuoSe table, both as an imperative method and as a specification function. `PickRandomColor`, `GetMatchedColor` and `GetChannelValue` are the lookups.
- **`Updator`** (`updator.dfy`, from `components/ChannelUpdator.tsx` and `components/PanArea.tsx`). `GetDiff` maps a drag to a channel delta, computed over reals. `Route` sends each pan event to the callback it reaches.
- **`App`** (`app.dfy`, from `App.tsx`). `EnsureColorBoundary` clamps a channel value. `Session` is a class whose fields are the state cells of the `App` component: displayed colour `bgColor`, committed colour, `adjusting` flag, last delta, selected channel and matched entry. Its methods are the handlers, and the two effects run as synchronous steps.
- **`Wrappers`** (`wrappers.dfy`) holds `Option`. `None` plays the role of JavaScript's `undefined` result.

Conventions:

- `Math.random()` is a parameter `rnd` with `0 <= rnd < 1`.
- The window size is a pair of positive reals.
- The order in which `Object.keys(allColors)` lists keys is a parameter `colorKeys`. It must list every catalog key exactly once.

How the model reads the source:

- `App.tsx` reads `hexToRgb`'s result as `.r`, `.g` and `.b`, and imports `ColorChannel` from a file that does not export it. The model reads the code as evidently intended; "## Left out" says what the code as written would do instead.
- `App.tsx` passes `onChannelChange` to `ChannelSelector`, whose prop is called `selectChannel`. `onRefresh` is passed to no component. So, as written, `onNameChange` and `onRefresh` cannot be reached from the UI. Both are still modelled, as `Session.NameChange` and `Session.Refresh`.
- Behaviour of the code as written, which a reader might expect otherwise:
  - `getDiff(0, 100)` on a 200×200 window is -128, not -127. `Math.floor` rounds -127.5 down (`Updator.HalfHeightDown`).
  - Refresh does not exclude the current colour (`Color.PickCanReturnAnyKey`).
  - Refresh does not reset the selected channel to red.
  - Changing channel reads the value from the displayed colour, not the committed one.
  - There is no reset-to-original operation and no "can reset" flag.
  - `getMatchedColor` does not normalise case (`Color.UpperCaseCodeUnmatched`).
  - The delta is never reset between drags. A grant followed by a release commits the previous drag's delta again (`App.StartAndRelease`).

## Model

| member | source | states |
|---|---|---|
| `Color.HexToRgb` | lib/color.ts:56-65 | A string the pattern rejects gives back the fallback unchanged. A matching string gives three channels, each in [0, 255]. |
| `Color.HexToRgbIgnoresCase` | lib/color.ts:57-63 | Lower-casing the hex letters changes neither whether the pattern matches nor the parsed colour. |
| `Color.ParseHexBelow` | lib/color.ts:60-62 | `ParseHex` reads `parseInt(s, 16)` on hex digits, most significant first. The value is below `16^|s|`, so a two-digit group is below 256. On `""` `ParseHex` gives 0 where `parseInt` gives `NaN`; only two-digit groups are ever parsed. |
| `Color.PatternShape` | lib/color.ts:57 | The pattern matches exactly when the string ends in six hex digits of either case, preceded by nothing or by a single `#`. |
| `Color.ParseHexIgnoresCase` | lib/color.ts:60-62 | `parseInt(_, 16)` gives the same value for upper- and lower-case digits. |
| `Color.ToHex` | lib/color.ts:68 | `toString(16)` writes lower-case hex digits. It writes one digit exactly when the value is below 16, and at most two below 256. |
| `Color.ParseToHex` | lib/color.ts:60-70 | Parsing what `toString(16)` wrote gives back the number. |
| `Color.ComponentToHex` | lib/color.ts:67-70 | For a channel in [0, 255]: two lower-case hex digits, zero-padded, whose base-16 value is the channel. |
| `Color.RgbToHex` | lib/color.ts:72-74 | Seven characters: `#`, then six lower-case hex digits. Each two-digit group is the base-16 value of its channel. |
| `Color.RgbHexRoundTrip` | lib/color.ts:56-74 | For every colour with channels in [0, 255], `hexToRgb(rgbToHex(c), fb) == c` for any fallback. |
| `Color.HexRgbRoundTrip` | lib/color.ts:56-74 | For every matching string, `rgbToHex(hexToRgb(s))` is `#` followed by the six digits of `s`, lower-cased. |
| `Color.GetChannelValue` | lib/color.ts:76-79 | The value is always in [0, 255]. It is 0 for a string the pattern rejects. |
| `Color.ChannelOfCanonical` | lib/color.ts:72-79 | Reading a channel of `rgbToHex(c)` gives that channel of `c`. |
| `Color.BuildCatalog` | lib/color.ts:27-42 | The brand `reduce` loop and the ZhongGuoSe loop produce exactly `CatalogOf(brands, names)`. |
| `Color.BrandCatalogEntry` | lib/color.ts:27-35 | After the brand loop, a key is present exactly when some brand lists it. Its entry is the one written by the last brand listing it. |
| `Color.WithNamesEntry` | lib/color.ts:37-42 | The ZhongGuoSe loop keeps every entry and creates missing ones with code `#key`. It appends the key's names to the existing descriptions, in table order. |
| `Color.CatalogEntry` | lib/color.ts:27-42 | A key is in the catalog exactly when a brand lists it or the ZhongGuoSe table names it. Its entry is `#key` with the last listing brand's description, followed by all its ZhongGuoSe names in order. |
| `Color.CatalogOf` | lib/color.ts:27-42 | A key is in the catalog exactly when a brand lists it or the ZhongGuoSe table names it. Every entry's code is `#` followed by its key. |
| `Color.KeyInBothTables` | lib/color.ts:27-42 | A key in both tables has exactly two descriptions: the last listing brand's, then its ZhongGuoSe name. |
| `Color.Filter` | lib/color.ts:45 | The pool holds exactly the keys that are not excluded. |
| `Color.RandomIndex` | lib/color.ts:47 | For a non-empty pool, `Math.floor(rnd * n)` is a valid index. |
| `Color.RandomIndexInterval` | lib/color.ts:47 | Position `i` is chosen exactly for `rnd` in `[i/n, (i+1)/n)`, so every position is equally likely. |
| `Color.PickRandomColor` | lib/color.ts:44-48 | The result is defined exactly when some key is not excluded. It is then the entry of a key outside the exclusion list. |
| `Color.PickCanReturnAnyKey` | lib/color.ts:44-48 | With no exclusion, every key can be picked, the current colour included. |
| `Color.MatchKeyDropsFirst` | lib/color.ts:52 | `code.substring(1)` drops exactly the first character, whatever it is, and gives `""` for `""`. |
| `Color.GetMatchedColor` | lib/color.ts:51-54 | An entry is found exactly when the code minus its first character is a key. The result is that key's entry. |
| `Color.MatchedOwnCode` | lib/color.ts:51-54 | Looking up an entry's own code finds that entry. |
| `Color.UpperCaseCodeUnmatched` | lib/color.ts:51-54 | The lookup is case-sensitive. With canonical keys, a code holding an upper-case digit finds nothing. |
| `Color.BareKeyUnmatched` | lib/color.ts:51-54 | The first character is dropped unconditionally, so a bare six-digit key finds nothing in a canonical catalog. |
| `Updator.GetDiff` | components/ChannelUpdator.tsx:14-18 | The result is the floor of 255 × the chosen fraction. The horizontal fraction is used exactly when abs(dx) > abs(dy). Otherwise the vertical fraction is used, with its sign inverted. |
| `Updator.GetDiffBounded` | components/ChannelUpdator.tsx:14-18 | A drag inside the window gives a delta in [-255, 255]. |
| `Updator.UpwardDragNotNegative` | components/ChannelUpdator.tsx:16-17 | A mostly-upward drag gives a delta of at least 0. |
| `Updator.DownwardDragNegative` | components/ChannelUpdator.tsx:16-17 | A mostly-downward drag gives a delta of at most -1, because floor rounds away from zero. |
| `Updator.ZeroDragZeroDiff` | components/ChannelUpdator.tsx:14-17 | Zero displacement gives delta 0. Ties use the vertical axis. |
| `Updator.HalfWidthRight` | components/ChannelUpdator.tsx:14-17 | Half the width to the right gives 127. |
| `Updator.HalfHeightDown` | components/ChannelUpdator.tsx:14-17 | Half the height downwards gives -128. |
| `Updator.Route` | components/ChannelUpdator.tsx:45-64 | A grant reaches `onStart`. A move reaches `onUpdate(getDiff(dx, dy))` with the cumulative offsets. Both release and terminate reach `onComplete`. |
| `App.EnsureColorBoundary` | App.tsx:25-28 | The result is `code + step` clamped to [0, 255], so it is always in range. |
| `App.ZeroStepKeepsCode` | App.tsx:25-28 | A step of 0 keeps an in-range value, even though the sign is -1 for 0. |
| `App.AdjustedColor` | App.tsx:72-84 | The selected channel becomes the clamped sum. The other two channels are copied unchanged. |
| `App.DragColor` | App.tsx:72-87 | The displayed code is canonical. Its selected channel is the committed channel moved by the delta and clamped. Its other channels equal the committed colour's. |
| `App.GreenPlusForty` | App.tsx:72-87 | Raising green by 40 in `#1a2b3c` displays `#1a533c`. |
| `App.Session.constructor` | App.tsx:23-41 | Start state: the matched entry is `PickRandomColor(catalog, keys, [], rnd)`, a pick with no exclusion. Its code is displayed and committed. Not adjusting, delta 0, red selected with the red value of the displayed colour. |
| `App.Session.AdjustEffect` | App.tsx:70-89 | While adjusting, the display becomes `DragColor(committed, selected channel, delta)` and the match is that code's lookup. At rest nothing changes. |
| `App.Session.CommitEffect` | App.tsx:107-111 | At rest, committed becomes displayed. While adjusting, committed does not change. |
| `App.Session.Start` | App.tsx:132 | `adjusting` becomes true and committed does not change. From rest, the display is recomputed with the stale delta of the previous drag. |
| `App.Session.Update` | App.tsx:131 | The delta is stored and committed does not change. While adjusting, a new delta displays `DragColor(committed, channel, delta)`, which does not depend on earlier deltas. |
| `App.Session.Complete` | App.tsx:133 | `adjusting` becomes false and committed becomes the displayed colour. |
| `App.Session.NameChange` | App.tsx:43-58 | The selected channel becomes `ch`. Its value is channel `ch` of the displayed colour, not the committed one. |
| `App.Session.Refresh` | App.tsx:60-68 | The match becomes `PickRandomColor(catalog, keys, [], rnd)`, a pick with no exclusion that may repeat the current colour, and the display becomes its code. At rest, committed follows. |
| `App.Session.HandlePan` | App.tsx:125-135 | A grant sets `adjusting`; from rest it displays the committed colour moved by the stored delta, and while adjusting it changes nothing shown. A move stores `getDiff` of the offsets; the display is recomputed only when adjusting and the delta changed, and is otherwise unchanged. A release or a terminate commits the displayed colour and clears `adjusting`. |
| `App.Titles` | App.tsx:150 | `desc.map(d => d.title)`: one title per description, in order. |
| `App.Session.ShownTitles` | App.tsx:146-152 | The matched titles are shown exactly when not adjusting and an entry matched. |
| `App.DragTwice` | App.tsx:70-111 | Start, move d1, move d2, release: the committed colour moves by d2 alone, and the match follows it. |
| `App.StartAndRelease` | App.tsx:70-111 | A grant then a terminate with no move commits the previous drag's delta again. |

Every session method also keeps `Session.Valid()`, which holds two invariants:

- the matched entry is always the lookup of the displayed code;
- at rest, the committed colour equals the displayed colour.

The constructor also establishes `Session.CatalogReady()`: `colorKeys` lists every catalog key once, the catalog is not empty, and every code is `#` followed by its key. The catalog and the key order are constants, so this holds for the life of the session. Only `Session.Refresh`, which picks from the catalog, requires it.

## Left out

- Randomness: `Math.random()` is the parameter `rnd`. Uniformity is stated as `Color.RandomIndexInterval`: every position gets an interval of the same length.
- `Object.keys` order is the parameter `colorKeys`. JavaScript lists integer-like keys (such as `123456`) first; that only changes which key a given `rnd` selects.
- Floating point: `getDiff` is computed over exact reals, and the window dimensions are parameters.
- The data tables in `constants/brands` and `constants/zhongguose` are not part of this model. The catalog is built from any two input sequences.
- `Color.ComponentToHex`: requires an integer channel in [0, 255]. `toString(16)` on other numbers is not modelled.
- `Color.PickRandomColor`: returns `None` when every key is excluded. The source returns `undefined` there, and a later `.code` would throw.
- `App.Session.constructor`: requires a non-empty catalog. With an empty one, `randomColor.code` at line 35 would throw.
- The tutorial flow (`AsyncStorage`, the `wait` timers, lines 91-105) is not modelled. It is asynchronous I/O and timing.
- The 100 ms `wait` in `onRefresh` and its `refreshing` flag are not modelled. The core never reads the flag, and refresh is treated as atomic.
- `ContrastColor` and the foreground colour (lines 30, 114) are not modelled. They come from a foreign library.
- Animated `touchPos` offsets, `updateOffSet` and `FINGER_SIZE_OFFSET` are not modelled. They are visual plumbing.
- `.r`, `.g`, `.b`: `App.tsx` reads these fields of `hexToRgb`'s result, which only has `red`, `green` and `blue`. As written, `selectedChannel.value` would be `undefined` (lines 41, 48-54). `rgb.r = ensureColorBoundary(undefined, …)` would add a `NaN` field that `rgbToHex` never reads (lines 76-82), so the adjust effect would display the committed colour unchanged. The model takes `.r/.g/.b` as the three channels, which is what `DragColor` and `NameChange` state.
- `ColorChannel`: `App.tsx:20` imports it from `components/ChannelSelector.tsx`, which exports only its default component. As written, `ColorChannel.RED` at line 41 would throw on first render. The model uses the enum of `lib/color.ts`.
- `Color.GetMatchedColor`: `allColors` is a plain `{}` object, so a code such as `#toString` or `#constructor` finds an inherited `Object.prototype` member, not `undefined`. The map returns `None` there. The session only looks up canonical six-digit codes, which never name such a member.
- Rendering is not modelled: JSX, styles, `Platform.select`, the comma-joined channel text (line 144) and the `","` join of titles (`ShownTitles` returns the list).
- `components/ChannelSelector.tsx` is rendering only. Its reset and `canReset` props have no logic behind them in `App.tsx`.
- React compares state with `Object.is`, so a delta of `-0` after `0` re-runs the adjust effect. Integers have no `-0`, so `Session.Update` treats it as an unchanged delta.
