# Breakpoint CSS assembly in Custom CSS for Elementor

This project is a Dafny model of the part of the WordPress plugin *Custom CSS for Elementor*
that turns per-device CSS snippets into one stylesheet. The assembly is implemented twice.

- **The server-side merger**, `Hook_Action::parse_css_to_remove_injecting_code`
  (`inc/hook-action.php`). It builds the `$devices` table: desktop first with no media
  wrapper, then one row per active Elementor breakpoint. It `unset`s desktop, `usort`s the
  rest by pixel value, descending, and puts desktop back in front.
  For each row it reads the CSS setting, trims it and skips it when it is `empty`. It wraps
  every breakpoint's CSS in ` @media (max-width: Npx) { ... }`, then `implode`s the pieces
  and replaces every `selector` with the element's unique selector. The result goes to the
  HTML and CSS sanitizers.
- **The settings keys** that `register_controls` creates for each device tab
  (`inc/hook-action.php`). The device key is the lower-cased label with every run of
  whitespace turned into `_`.
- **The editor previewer**, `addCustomCss` (`assets/js/editor-css-script.js`). It keeps the
  settings whose key contains `_custom_css_f_ele_value` and sorts them by value, descending.
  It pairs each with its CSS key and appends the first device's CSS unwrapped and every
  later one inside a media block. It does not trim or skip anything. It replaces
  `selector` in that text only, appends the text to the incoming style text and hands the
  whole to DOMPurify.

The modules follow that structure:

- `Strings`: PHP `trim`, `strtolower`, `preg_replace('/\s+/', '_', ...)`, `empty`, `implode`,
  `str_replace` / `replaceAll`, JavaScript `indexOf`, `replace` and `includes`, and decimal rendering.
- `StableSort`: PHP 8 `usort` and ECMAScript `Array.prototype.sort` with a descending
  comparator. Both are stable sorts.
- `PhpArray`: the ordered PHP array that `$devices` is.
- `Controls`: the keys `register_controls` writes.
- `Merger`: the server side.
- `Previewer`: the client side.

The two loops of the merger are methods with loop invariants: `SortDevices` and
`CollectParts`, called from `ParseCssToRemoveInjectingCode`. The previewer's `forEach`
accumulator is `BuildCustomCss`, called from `AddCustomCss`. Each method is proved equal to
a specification function, and the properties are lemmas about those functions.

A few inputs become parameters:

- Elementor's active breakpoints;
- the element's settings;
- the unique selector, `modelData.postID` and the document's `cssWrapperSelector`;
- the sanitizers: `wp_kses` with no allowed tags, the `Parser` / `StylesheetSanitizer` /
  `Util::stringify` chain, and `DOMPurify.sanitize`. These are string-to-string function
  parameters applied to the assembled text.

Details of the code worth knowing:

- **Spacing.** A media block is ` @media (max-width: Npx) { css }`, with a leading space and
  spaces inside the braces.
- **Blank settings.** A setting is blank when it is missing, or when it or its trimmed text
  is `""` or `"0"`: PHP `empty("0")` is true. `trim` strips space, tab, LF, CR, NUL and
  vertical tab.
- **Where `selector` is replaced.** The replacement is done once, on the joined text, not
  per fragment. `Merger.MergedCssSubstitution` proves that this comes to the same as
  replacing inside each fragment.
- **Which breakpoints take part.** All of those Elementor reports as active, whatever their
  direction: every one of them is wrapped in a `max-width` query.
- **Blank CSS on the client.** The previewer does not skip blank CSS. A missing CSS
  attribute is rendered as the text `undefined`.

## Model

| member | source | states |
|---|---|---|
| Merger.ParseCssToRemoveInjectingCode | inc/hook-action.php:217-292 | Returns nothing when no device contributes. Otherwise returns the sanitizers applied to the joined pieces, with every `selector` replaced by the unique selector. |
| Merger.SortDevices | inc/hook-action.php:226-258 | The foreach that fills `$devices`, the `unset`, the `usort` and the union together compute `$sorted_devices`. This is the desktop row, then the remaining rows sorted by value, descending, re-keyed 0, 1, .... |
| Merger.CollectParts | inc/hook-action.php:262-272 | The second foreach yields one piece per row whose setting is present and non-blank once trimmed. The piece is the media opener, the trimmed CSS and ` }` unless the key is `desktop`. |
| Merger.MediaQueryValue | inc/hook-action.php:236 | `MediaQuery`'s opener is ` @media (max-width: `, the pixel value in decimal and `px) { `. The value can be read back from it. |
| Merger.DeviceTable | inc/hook-action.php:226-245 | The table always holds a row keyed `desktop`, and no key occurs twice, whatever the breakpoints' keys are. That row is the desktop row unless a breakpoint is itself keyed `desktop` and overwrites it. |
| PhpArray.Put | inc/hook-action.php:239 | After `$t[$k] = $v` the key maps to the new value and every other key is unchanged. An existing key keeps its position; a new key is appended. |
| PhpArray.PutDistinct | inc/hook-action.php:239 | Assignment never creates a second entry for a key. |
| PhpArray.Remove | inc/hook-action.php:249 | After `unset` the key is absent and every other key is unchanged. |
| PhpArray.RemoveAt | inc/hook-action.php:249 | In a table whose keys are distinct, `unset` of the key of entry `i` drops exactly that entry: the result is the entries before it followed by the entries after it, in their order. |
| PhpArray.RemoveAppend | inc/hook-action.php:249 | `unset` on a table made of two parts is `unset` on each part, the results kept in the same order. |
| PhpArray.RemoveAbsent | inc/hook-action.php:249 | Unsetting a key that is not there changes nothing. |
| PhpArray.GetFound | inc/hook-action.php:248 | A key is found exactly when some entry carries it. |
| PhpArray.Values | inc/hook-action.php:252-254 | `usort` keeps the values in order and drops the keys. |
| Merger.DeviceTableShape | inc/hook-action.php:226-245 | When breakpoint keys are distinct and none is `desktop`, the table is the desktop row, then one row per breakpoint in supply order. |
| Merger.SortedDevicesShape | inc/hook-action.php:248-258 | For such breakpoints `$sorted_devices` is the desktop row, then the breakpoint rows sorted by value, descending, keyed by position. |
| Merger.FragmentIff | inc/hook-action.php:266-268 | The two `empty` tests around `trim` amount to this: a setting contributes exactly when it is present and its trimmed text is neither `""` nor `"0"`, and it contributes that trimmed text. |
| Merger.PartsEmptyIff | inc/hook-action.php:265-272 | No piece is collected exactly when no row's setting contributes. |
| Merger.MergedCss | inc/hook-action.php:262-281 | The merged text is nothing, so no substitution or sanitizing happens, exactly when every row's CSS is missing or blank. |
| Merger.MergedNoneIffBlankInputs | inc/hook-action.php:265-276 | The same, stated over the inputs: the desktop setting and each breakpoint's setting key are all missing or blank. |
| Merger.PartsLayout | inc/hook-action.php:226-272 | The pieces are: the trimmed desktop CSS, first, unwrapped and with no ` }`, when it is not blank; then one ` @media (max-width: Npx) { trimmed css }` per contributing breakpoint, in merge order. |
| Merger.DesktopParts | inc/hook-action.php:269 | The desktop row contributes its trimmed CSS with an empty opener and no closing brace. |
| Merger.IndexedParts | inc/hook-action.php:269 | Integer-keyed rows contribute exactly their wrapped blocks, in order. |
| Merger.MergeLayout | inc/hook-action.php:262-281 | The merged text is the pieces of the layout joined with no separator, with `selector` replaced. It is nothing when there are no pieces. |
| Merger.MergeBlocksSorted | inc/hook-action.php:252-272 | Dropping blank rows after the sort gives the same blocks as dropping them first. The media blocks are the contributing breakpoints in supply order, stably sorted by value, descending. |
| Merger.MergeBlocksDescending | inc/hook-action.php:252-254 | Media blocks appear in descending order of pixel value. |
| Merger.MergeBlocksMember | inc/hook-action.php:236-269 | A block with CSS `c` exists for a row exactly when the row belongs to a supplied breakpoint and that breakpoint's setting trims to the non-blank `c`. |
| Merger.MergeBlocksCount | inc/hook-action.php:266-272 | The media blocks are, as a multiset, exactly the contributing breakpoints' blocks. So there are as many as there are non-blank breakpoint settings. |
| Merger.BlocksMember | inc/hook-action.php:266-268 | A row yields a block exactly when its setting contributes, and the block carries the trimmed CSS. |
| Merger.BlocksWithKey | inc/hook-action.php:266-268 | Skipping blank rows commutes with picking the rows of one value. |
| Merger.BlocksSortedDesc | inc/hook-action.php:266-268 | Skipping blank rows keeps descending order. |
| Merger.BlocksEmptyIff | inc/hook-action.php:266-268 | No block exactly when every row is blank. |
| Merger.MergedCssSubstitution | inc/hook-action.php:278-281 | For well-formed breakpoints, `selector` is replaced inside each device's trimmed CSS and nowhere else. No occurrence spans two pieces, and the `@media` wrappers are unchanged. |
| Merger.ReplaceInWrapped | inc/hook-action.php:281 | Replacing in a media block leaves its opener and ` }` alone and replaces inside its CSS. |
| Merger.MediaQueryNoS | inc/hook-action.php:236 | No occurrence of `selector` can start inside a media opener. |
| Merger.MergeIgnoresSupplyOrder | inc/hook-action.php:234-258 | When no two breakpoints share a pixel value, reordering Elementor's breakpoints does not change the merged CSS. |
| Merger.BreakpointDevicesMultiset | inc/hook-action.php:234-245 | Reordering the breakpoints reorders their rows the same way. |
| Merger.SettingKeysAgree | inc/hook-action.php:237-241 | The key `SettingKey` derives, which the merger reads for a breakpoint, is the CSS key `register_controls` writes for its label. The desktop row's `_custom_css_f_ele_css_desktop` is the key written for the `desktop` tab. |
| Merger.Php7LeavesFirstBlockOpen | inc/hook-action.php:269 | PHP 7 evaluates `0 != 'desktop'` as false, so the first sorted breakpoint gets its opener but not ` }`. With the PHP 8 comparison the model uses, that block is closed. |
| Controls.DeviceKey | inc/hook-action.php:104-107 | A device key contains no whitespace and no capital letter. |
| Controls.ControlKeysFor | inc/hook-action.php:104-136 | The tab, heading, threshold and CSS keys of one device are pairwise distinct, so no control of a tab overwrites another's setting. |
| Controls.DeviceKeyIdempotent | inc/hook-action.php:104-107 | Deriving a key from a key changes nothing. |
| Controls.CollapseKeepsLower | inc/hook-action.php:107 | Collapsing whitespace introduces no capital letter. |
| Controls.PlainLabel | inc/hook-action.php:104-107 | A label of lower-case letters is its own key. |
| Controls.DesktopKeys | inc/hook-action.php:126-136 | The desktop tab's value and CSS keys end in `desktop`. |
| Strings.Trim | inc/hook-action.php:267 | `trim` gives the infix that is left when the leading and trailing runs of trim characters are removed. It neither starts nor ends with one. |
| Strings.TrimIdempotent | inc/hook-action.php:267 | Trimming twice is trimming once. |
| Strings.ToLower | inc/hook-action.php:237 | `strtolower` lowers each ASCII capital and keeps every other character. |
| Strings.CollapseSpaces | inc/hook-action.php:238 | The result holds no `\s` character. |
| Strings.CollapseFree | inc/hook-action.php:238 | A string without a `\s` character is unchanged. |
| Strings.CollapseRun | inc/hook-action.php:238 | A maximal run of whitespace becomes one `_`. |
| Strings.CollapseWord | inc/hook-action.php:238 | Text without whitespace is copied through. |
| Strings.ConcatAppend | inc/hook-action.php:278 | `implode('')` of two lists joined is the two joins appended. |
| Strings.SplitJoin | inc/hook-action.php:281 | Cutting the text at the leftmost non-overlapping occurrences of the pattern and joining the chunks back with the pattern gives the text. |
| Strings.SplitChunksFree | inc/hook-action.php:281 | No chunk between replaced occurrences contains the pattern. |
| Strings.ReplaceAllIsJoin | inc/hook-action.php:281 | `str_replace` joins those chunks with the replacement, so the text between occurrences is unchanged. |
| Strings.ReplaceAllAbsent | inc/hook-action.php:281 | Text without the pattern is unchanged. |
| Strings.ReplaceAllAppend | inc/hook-action.php:281 | When the second half starts with a character not in the pattern, replacing in the concatenation is replacing in each half. |
| Strings.ReplaceAllConcat | inc/hook-action.php:278-281 | When every part after the first starts with such a character, replacing in the join is joining the replaced parts. |
| Strings.IndexOf | assets/js/editor-css-script.js:22 | The search `replace` starts with: there is no position exactly when the text does not contain the pattern; otherwise it is a position where an occurrence starts and before which none starts. |
| Strings.ReplaceFirst | assets/js/editor-css-script.js:22 | JavaScript `replace` with a string pattern: text without the pattern is unchanged; otherwise exactly one occurrence is replaced, so the length changes by the difference. |
| Strings.ReplaceFirstAt | assets/js/editor-css-script.js:22 | When `i` is the first position where the pattern occurs, the result is the text before `i`, the replacement, and the text after that occurrence; nothing else changes. |
| Strings.FirstOccurrenceUnique | assets/js/editor-css-script.js:22 | A text has at most one first occurrence of a pattern, so the position `replace` acts on is determined. |
| Strings.NoOccurrenceBeforeIff | assets/js/editor-css-script.js:22 | "No occurrence starts before `i`" holds exactly when no position below `i` starts one. |
| Strings.ContainsAt | assets/js/editor-css-script.js:11 | `includes` is true whenever some position starts an occurrence. |
| Strings.ReplaceFirstAfterPrefix | assets/js/editor-css-script.js:22 | When the pattern's first character does not occur in `m`, `replace` on `m`, the pattern and `y` gives `m`, the replacement and `y`. |
| Strings.IntToStringRoundTrip | inc/hook-action.php:236 | The decimal rendering of the pixel value loses nothing. |
| StableSort.SortDescSorted | inc/hook-action.php:252-254 | The sort yields descending order and keeps the length. |
| StableSort.SortDescPermutes | inc/hook-action.php:252-254 | The sort's result is a permutation of its input. |
| StableSort.SortDescStable | inc/hook-action.php:252-254 | Rows with equal values keep their supply order. |
| StableSort.SortedUnique | inc/hook-action.php:252-254 | Sortedness and stability determine the result. |
| StableSort.SortDescIgnoresOrder | inc/hook-action.php:252-254 | With distinct values, the result does not depend on supply order. |
| Previewer.AddCustomCss | assets/js/editor-css-script.js:2-42 | Given no context, returns undefined. Given an empty accumulated CSS, returns undefined. Otherwise returns DOMPurify applied to the incoming CSS, unchanged, followed by the custom CSS with every `selector` replaced by the element's or document's selector. |
| Previewer.SelectorFor | assets/js/editor-css-script.js:33-36 | A document gets the document's wrapper selector. Any other element gets a selector that starts with the post's class and ends with the element's id. |
| Previewer.SelectorIdentifiesElement | assets/js/editor-css-script.js:33-36 | Within one post, two elements that are not documents get the same selector exactly when their ids agree. |
| Previewer.CssKeyFor | assets/js/editor-css-script.js:22 | A key without `ele_value` is kept as it is; otherwise only its first `ele_value` becomes `ele_css`, two characters shorter. |
| Previewer.CssKeyForFirst | assets/js/editor-css-script.js:22 | A key holding `ele_value` has a first occurrence of it. The CSS key is the text before that occurrence, `ele_css`, and the text after it. |
| Previewer.JsNumberReads | assets/js/editor-css-script.js:16 | The subtraction reads a number as itself, the decimal rendering of a number back as that number, and `""` as 0. |
| Previewer.BuildCustomCss | assets/js/editor-css-script.js:20-29 | The forEach accumulates the contributions of the sorted devices in order: index 0 unwrapped, every other one in a media block with its value. |
| Previewer.ValueEntriesMember | assets/js/editor-css-script.js:10-12 | An entry takes part exactly when it is an attribute whose key contains `_custom_css_f_ele_value`. |
| Previewer.DeviceValueOrder | assets/js/editor-css-script.js:13-17 | `deviceValue` holds exactly those entries, in descending order of value. Equal values keep `Object.keys` order. |
| Previewer.CssKeyPairsControls | assets/js/editor-css-script.js:21-23 | Every device's threshold control takes part. Replacing its first `ele_value` with `ele_css` gives that device's CSS control key. |
| Previewer.DesktopControlsPair | assets/js/editor-css-script.js:21-23 | The desktop threshold control is paired with `_custom_css_f_ele_css_desktop`. |
| Previewer.CustomCssEmptyIff | assets/js/editor-css-script.js:20-31 | The accumulated CSS is empty exactly when there is no device, or a single device whose CSS renders as `""`. With two devices or more, something is always returned. |
| Previewer.BlankCssStillWrapped | assets/js/editor-css-script.js:23-28 | A later device with missing or empty CSS still gets a media block, around `undefined` or around nothing. |
| Previewer.WrappedContributionNonEmpty | assets/js/editor-css-script.js:27 | Every contribution after the first starts with the media opener. |
| Previewer.HighestComesFirst | assets/js/editor-css-script.js:13-25 | When one device's value exceeds all others, that device is the unwrapped first one. This is desktop when desktop's value is the highest. |

## Left out

- The sanitizers `wp_kses`, `Parser`, `StylesheetSanitizer`, `Util::stringify` (inc/hook-action.php:283-289) and `DOMPurify.sanitize` are library code. They are function parameters applied to the assembled text.
- The `error_log` debug line (inc/hook-action.php:256) is a side effect with no bearing on the result.
- Hook registration, the control and tab UI of `register_controls` (everything except its key derivation), `add_post_css`, `add_page_settings_css`, script enqueueing, the permission check and the singleton `instance()` are Elementor and WordPress plumbing.
- The jQuery event wiring and the delayed read-only tweak of the threshold inputs (assets/js/editor-css-script.js:44-61) are DOM and timer side effects.
- `get_active_breakpoints()`, `modelData.postID`, `model.get(...)` and `cssWrapperSelector` are reads of host state. They are parameters. The post id and element id are taken as already-rendered strings.
- Merger.DeviceTableShape and the layout lemmas that use it require Elementor's breakpoint keys are distinct and none is `desktop`. The operations themselves are modelled for any keys, with PHP's overwrite-in-place semantics.
- Merger.MergeIgnoresSupplyOrder needs distinct pixel values. With ties, the stable sort keeps supply order, so the order of equal-valued blocks does depend on it.
- Merger.NotDesktop models PHP 8 comparison. PHP 7 behaviour is modelled separately under Findings.
- Previewer.AddCustomCss requires every threshold attribute to be a value `Previewer.JsNumber` reads: a number, `""` or a whole-number decimal string. Inputs outside that are excluded. Among them, only strings JavaScript's `Number()` does not read give `NaN` in `b[keyB] - a[keyA]`, and then the sort order is implementation-defined. The others subtract to numbers and are sorted consistently by the source, but the model does not cover them (see the `Previewer.JsNumber` line).
- Previewer.AddCustomCss: JavaScript `replaceAll` with a string replacement expands `$&`, `$$`, `` $` `` and `$'` in it. The model inserts the selector literally. Elementor's selectors and `cssWrapperSelector` never contain `$`, so nothing changes for the selectors the host produces.
- Previewer.HighestComesFirst: the previewer leaves unwrapped whichever device has the highest value, while the merger always leaves desktop unwrapped. The two differ when a breakpoint's value is above desktop's, as with Elementor's min-width widescreen breakpoint: the previewer then leaves that breakpoint unwrapped and wraps desktop. The model does not prove the two sides agree.
- Previewer.JsNumber reads only `""` and optionally signed digit strings. JavaScript's `Number()` also accepts surrounding whitespace, `+`, fractions, exponents and hexadecimal. Fractional thresholds are not modelled.
- Previewer.JsString renders integers in plain decimal. JavaScript switches to exponent notation from 1e21; this is not modelled.
- Both sorts are modelled as one value-level stable insertion sort. The in-place mechanics of `usort` and `Array.prototype.sort` are not modelled; their observable result is.
- Object key order: the attributes are a sequence in `Object.keys` order. JavaScript puts integer-like keys first, but such keys never contain `_custom_css_f_ele_value`, so the order of the filtered keys is the insertion order.

## Findings

| source | as written | input that shows it | evidently intended | confidence | as-written member | corrected member |
|---|---|---|---|---|---|---|
| inc/hook-action.php:269 | `$device != 'desktop'` compares the re-indexed integer key `0` with a string. Under PHP 7 loose comparison `0 != 'desktop'` is false. | PHP 7, one breakpoint `mobile` (767px) whose CSS is `a{color:red}`: the joined text is ` @media (max-width: 767px) { a{color:red}`, with no closing brace. | Only the `desktop` row is left unwrapped; every breakpoint block is closed. This is what PHP 8 gives. | not executed; the output depends on the PHP version | Merger.Php7LeavesFirstBlockOpen | Merger.PartsLayout |
