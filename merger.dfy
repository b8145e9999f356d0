/**
 * The server-side breakpoint CSS merger, `Hook_Action::parse_css_to_remove_injecting_code`.
 *
 * It builds a device table (desktop first, with no media wrapper, then one row per active
 * breakpoint), sorts the breakpoint rows by pixel value, descending, trims each device's
 * CSS setting, skips blank ones, wraps the others in `@media (max-width: Npx) { ... }`,
 * joins the pieces, replaces the `selector` placeholder with the element's unique selector
 * and hands the text to the HTML and CSS sanitizers. The sanitizers are library code and
 * enter as function parameters.
 */
module Merger {
  import opened Wrappers
  import opened Strings
  import opened StableSort
  import opened PhpArray
  import Controls

  /** One entry of Elementor's active breakpoints: its array key, its label and its pixel value. */
  datatype Breakpoint = Breakpoint(name: string, labelText: string, value: int)

  /** One row of `$devices`: the media-query opener, the settings key of its CSS, its pixel value. */
  datatype Device = Device(media: string, setting: string, value: int)

  /** A key of `$sorted_devices`: the string 'desktop' or an integer index given by `usort`. */
  datatype ArrayKey = StrKey(s: string) | IntKey(i: int)

  /** One row of `$sorted_devices`. */
  datatype Entry = Entry(key: ArrayKey, device: Device)

  /** The element's settings, as far as they hold CSS text. */
  type Settings = map<string, string>

  const DesktopKey := "desktop"
  const DesktopSetting := "_custom_css_f_ele_css_desktop"

  /**
   * The desktop row: no media wrapper. It has no 'value'; it is taken out of the table
   * before the sort, so the 0 here is never read.
   */
  const DesktopDevice := Device("", DesktopSetting, 0)

  /** The opener of a breakpoint's media block. */
  function MediaQuery(value: int): string {
    " @media (max-width: " + IntToString(value) + "px) { "
  }

  /** The opener is framed by fixed text, and the pixel value can be read back from it. */
  lemma MediaQueryValue(value: int)
    ensures var r := MediaQuery(value);
            |r| >= 26 && r[..20] == " @media (max-width: " && r[|r| - 6..] == "px) { " &&
            var n := r[20..|r| - 6];
            (forall k :: 0 <= k < |n| ==> IsDigit(n[k]) || (k == 0 && n[k] == '-')) && ParseInt(n) == value
  {
    IntToStringRoundTrip(value);
    var r := MediaQuery(value);
    assert r[20..|r| - 6] == IntToString(value);
  }

  /** The settings key the merger reads for a breakpoint label. */
  function SettingKey(labelText: string): string {
    "_custom_css_f_ele_css_" + CollapseSpaces(ToLower(labelText))
  }

  /** The table row the foreach builds for one breakpoint. */
  function BreakpointDevice(b: Breakpoint): Device {
    Device(MediaQuery(b.value), SettingKey(b.labelText), b.value)
  }

  function ValueOf(d: Device): int {
    d.value
  }

  /** `$devices` after the foreach over the breakpoints: desktop is always there, each key once. */
  function DeviceTable(bps: seq<Breakpoint>): (t: Table<Device>)
    ensures Get(t, DesktopKey).Some?
    ensures DistinctKeys(t)
    decreases |bps|
  {
    if bps == [] then [(DesktopKey, DesktopDevice)]
    else
      var t0 := DeviceTable(bps[..|bps| - 1]);
      var b := bps[|bps| - 1];
      PutDistinct(t0, b.name, BreakpointDevice(b));
      Put(t0, b.name, BreakpointDevice(b))
  }

  /** The sorted rows, keyed by their new integer positions. */
  function Indexed(rows: seq<Device>): seq<Entry>
  {
    seq(|rows|, i requires 0 <= i < |rows| => Entry(IntKey(i), rows[i]))
  }

  /** `$sorted_devices`: the desktop row, then the other rows sorted by value, descending. */
  function SortedDevices(bps: seq<Breakpoint>): seq<Entry> {
    var t := DeviceTable(bps);
    [Entry(StrKey(DesktopKey), Get(t, DesktopKey).value)]
      + Indexed(SortDesc(Values(Remove(t, DesktopKey)), ValueOf))
  }

  /**
   * `$device != 'desktop'` as PHP 8 evaluates it: an integer key is compared with the
   * string as the decimal string of the integer, so only the key 'desktop' itself is equal.
   */
  predicate NotDesktop(k: ArrayKey) {
    match k
    case StrKey(s) => s != DesktopKey
    case IntKey(_) => true
  }

  /**
   * The trimmed CSS a settings key contributes: the setting must be present and not
   * `empty`, and so must its trimmed text.
   */
  function Fragment(settings: Settings, key: string): Option<string> {
    if key in settings && !PhpEmpty(settings[key]) then
      var code := Trim(settings[key]);
      if !PhpEmpty(code) then Some(code) else None
    else None
  }

  /** No row's CSS setting contributes. */
  ghost predicate AllBlank(entries: seq<Entry>, settings: Settings) {
    forall e :: e in entries ==> Fragment(settings, e.device.setting).None?
  }

  /** The piece a row contributes: its media opener, its CSS and, unless it is desktop, ` }`. */
  function Piece(e: Entry, css: string): string {
    e.device.media + css + (if NotDesktop(e.key) then " }" else "")
  }

  /** `$custom_css_parts` after the second foreach has visited `entries`. */
  function Parts(entries: seq<Entry>, settings: Settings): seq<string>
    decreases |entries|
  {
    if entries == [] then []
    else
      var e := entries[|entries| - 1];
      Parts(entries[..|entries| - 1], settings)
        + match Fragment(settings, e.device.setting)
          case Some(code) => [Piece(e, code)]
          case None => []
  }

  /**
   * The merged CSS handed to the sanitizers: None when no device contributes, otherwise the
   * pieces joined with no separator and every `selector` replaced by the unique selector.
   * It is None exactly when every row's CSS is missing or blank, so neither the
   * substitution nor the sanitizers then run.
   */
  function MergedCss(settings: Settings, bps: seq<Breakpoint>, uniqueSelector: string): (r: Option<string>)
    ensures r.None? <==> AllBlank(SortedDevices(bps), settings)
  {
    var parts := Parts(SortedDevices(bps), settings);
    PartsEmptyIff(SortedDevices(bps), settings);
    if parts == [] then None else Some(ReplaceAll(Concat(parts), Controls.Placeholder, uniqueSelector))
  }

  /**
   * `parse_css_to_remove_injecting_code($element_settings, $unique_selector)`, with
   * Elementor's active breakpoints as `breakpoints`, `wp_kses($css, [])` as `stripTags`, and
   * the CSS parse, sanitize and minified stringify chain as `sanitizeCss`.
   */
  method ParseCssToRemoveInjectingCode(elementSettings: Settings, breakpoints: seq<Breakpoint>,
                                       uniqueSelector: string,
                                       stripTags: string -> string, sanitizeCss: string -> string)
    returns (r: Option<string>)
    ensures r == match MergedCss(elementSettings, breakpoints, uniqueSelector)
                 case None => None
                 case Some(css) => Some(sanitizeCss(stripTags(css)))
  {
    var sortedDevices := SortDevices(breakpoints);
    var parts := CollectParts(sortedDevices, elementSettings);
    if parts == [] {
      return None;
    }
    var customCss := Concat(parts);
    customCss := ReplaceAll(customCss, Controls.Placeholder, uniqueSelector);
    var removeTagsCss := stripTags(customCss);
    r := Some(sanitizeCss(removeTagsCss));
  }

  /**
   * The device-table half of the merger: the foreach that adds a row per breakpoint, the
   * `unset` of the desktop row, the `usort` of the rest and the union that puts desktop back
   * in front.
   */
  method SortDevices(breakpoints: seq<Breakpoint>) returns (sortedDevices: seq<Entry>)
    ensures sortedDevices == SortedDevices(breakpoints)
  {
    var devices: Table<Device> := [(DesktopKey, DesktopDevice)];
    for i := 0 to |breakpoints|
      invariant devices == DeviceTable(breakpoints[..i])
    {
      var b := breakpoints[i];
      var mediaQuery := MediaQuery(b.value);
      var deviceKey := ToLower(b.labelText);
      var keyCss := CollapseSpaces(deviceKey);
      assert breakpoints[..i + 1][..i] == breakpoints[..i];
      assert Device(mediaQuery, "_custom_css_f_ele_css_" + keyCss, b.value) == BreakpointDevice(b);
      devices := Put(devices, b.name, Device(mediaQuery, "_custom_css_f_ele_css_" + keyCss, b.value));
    }
    assert breakpoints[..|breakpoints|] == breakpoints;
    var desktop := Get(devices, DesktopKey).value;
    devices := Remove(devices, DesktopKey);
    var sorted := SortDesc(Values(devices), ValueOf);
    sortedDevices := [Entry(StrKey(DesktopKey), desktop)] + Indexed(sorted);
  }

  /** The second foreach: one piece per row whose CSS setting is not blank once trimmed. */
  method CollectParts(sortedDevices: seq<Entry>, elementSettings: Settings) returns (parts: seq<string>)
    ensures parts == Parts(sortedDevices, elementSettings)
  {
    parts := [];
    for i := 0 to |sortedDevices|
      invariant parts == Parts(sortedDevices[..i], elementSettings)
    {
      var data := sortedDevices[i];
      assert sortedDevices[..i + 1][..i] == sortedDevices[..i];
      if data.device.setting in elementSettings && !PhpEmpty(elementSettings[data.device.setting]) {
        var cssCode := Trim(elementSettings[data.device.setting]);
        if !PhpEmpty(cssCode) {
          parts := parts + [data.device.media + cssCode + (if NotDesktop(data.key) then " }" else "")];
        }
      }
    }
    assert sortedDevices[..|sortedDevices|] == sortedDevices;
  }

  // ---------------------------------------------------------------------------
  // What a device contributes
  // ---------------------------------------------------------------------------

  /**
   * The two `empty` tests collapse into one: a setting contributes exactly when it is
   * present and its trimmed text is neither "" nor "0", and it then contributes that text.
   */
  lemma FragmentIff(settings: Settings, key: string, code: string)
    ensures Fragment(settings, key) == Some(code) <==>
            key in settings && code == Trim(settings[key]) && !PhpEmpty(code)
  {
    if key in settings && PhpEmpty(settings[key]) {
      EmptyTrimmed(settings[key]);
    }
  }

  lemma {:induction false} PartsAppend(a: seq<Entry>, b: seq<Entry>, settings: Settings)
    ensures Parts(a + b, settings) == Parts(a, settings) + Parts(b, settings)
    decreases |b|
  {
    if b == [] {
      assert a + b == a;
    } else {
      assert (a + b)[..|a + b| - 1] == a + b[..|b| - 1];
      PartsAppend(a, b[..|b| - 1], settings);
    }
  }

  /** No piece at all exactly when no row's setting contributes. */
  lemma {:induction false} PartsEmptyIff(entries: seq<Entry>, settings: Settings)
    ensures Parts(entries, settings) == [] <==>
            forall i :: 0 <= i < |entries| ==> Fragment(settings, entries[i].device.setting).None?
    decreases |entries|
  {
    if entries != [] {
      var init := entries[..|entries| - 1];
      PartsEmptyIff(init, settings);
      assert forall i :: 0 <= i < |init| ==> init[i] == entries[i];
    }
  }

  // ---------------------------------------------------------------------------
  // The device table for well-formed breakpoints
  // ---------------------------------------------------------------------------

  /** Elementor's breakpoint keys are distinct and none of them is 'desktop'. */
  ghost predicate WellFormed(bps: seq<Breakpoint>) {
    (forall i :: 0 <= i < |bps| ==> bps[i].name != DesktopKey) &&
    (forall i, j :: 0 <= i < j < |bps| ==> bps[i].name != bps[j].name)
  }

  /** The breakpoint rows in the order the breakpoints were supplied. */
  function BreakpointDevices(bps: seq<Breakpoint>): seq<Device>
  {
    seq(|bps|, i requires 0 <= i < |bps| => BreakpointDevice(bps[i]))
  }

  function BreakpointTable(bps: seq<Breakpoint>): Table<Device>
  {
    seq(|bps|, i requires 0 <= i < |bps| => (bps[i].name, BreakpointDevice(bps[i])))
  }

  /** With well-formed breakpoints the table is the desktop row, then one row per breakpoint in order. */
  lemma {:induction false} DeviceTableShape(bps: seq<Breakpoint>)
    requires WellFormed(bps)
    ensures DeviceTable(bps) == [(DesktopKey, DesktopDevice)] + BreakpointTable(bps)
    decreases |bps|
  {
    if bps != [] {
      var init := bps[..|bps| - 1];
      var b := bps[|bps| - 1];
      DeviceTableShape(init);
      var t0 := [(DesktopKey, DesktopDevice)] + BreakpointTable(init);
      NewNameAbsent(bps);
      PutAppends(t0, b.name, BreakpointDevice(b));
      BreakpointTableSnoc(bps);
    }
  }

  /** The last breakpoint's key is on no earlier row. */
  lemma NewNameAbsent(bps: seq<Breakpoint>)
    requires WellFormed(bps) && bps != []
    ensures var t0 := [(DesktopKey, DesktopDevice)] + BreakpointTable(bps[..|bps| - 1]);
            forall i :: 0 <= i < |t0| ==> t0[i].0 != bps[|bps| - 1].name
  {
    var t0 := [(DesktopKey, DesktopDevice)] + BreakpointTable(bps[..|bps| - 1]);
    forall i | 0 <= i < |t0| ensures t0[i].0 != bps[|bps| - 1].name {
      if i > 0 {
        assert t0[i].0 == bps[i - 1].name;
      }
    }
  }

  /** Assigning to a key no row carries appends a row. */
  lemma PutAppends(t: Table<Device>, k: string, d: Device)
    requires forall i :: 0 <= i < |t| ==> t[i].0 != k
    ensures Put(t, k, d) == t + [(k, d)]
  {
    GetFound(t, k);
  }

  lemma BreakpointTableSnoc(bps: seq<Breakpoint>)
    requires bps != []
    ensures BreakpointTable(bps) == BreakpointTable(bps[..|bps| - 1]) + [(bps[|bps| - 1].name, BreakpointDevice(bps[|bps| - 1]))]
  {
  }

  /** With well-formed breakpoints: desktop first, then the breakpoint rows sorted by value. */
  lemma SortedDevicesShape(bps: seq<Breakpoint>)
    requires WellFormed(bps)
    ensures SortedDevices(bps) ==
            [Entry(StrKey(DesktopKey), DesktopDevice)] + Indexed(SortDesc(BreakpointDevices(bps), ValueOf))
  {
    DeviceTableShape(bps);
    var rest := BreakpointTable(bps);
    RemoveDesktopHead(rest);
    ValuesOfBreakpointTable(bps);
  }

  /** Unsetting 'desktop' from the well-formed table leaves the breakpoint rows. */
  lemma RemoveDesktopHead(rest: Table<Device>)
    requires forall i :: 0 <= i < |rest| ==> rest[i].0 != DesktopKey
    ensures Remove([(DesktopKey, DesktopDevice)] + rest, DesktopKey) == rest
    ensures Get([(DesktopKey, DesktopDevice)] + rest, DesktopKey) == Some(DesktopDevice)
  {
    var t := [(DesktopKey, DesktopDevice)] + rest;
    assert t[1..] == rest;
    RemoveAbsent(rest, DesktopKey);
  }

  lemma ValuesOfBreakpointTable(bps: seq<Breakpoint>)
    ensures Values(BreakpointTable(bps)) == BreakpointDevices(bps)
  {
  }

  // ---------------------------------------------------------------------------
  // The reference layout
  // ---------------------------------------------------------------------------

  /** A breakpoint row together with the trimmed CSS it contributes. */
  datatype Block = Block(device: Device, css: string)

  /** The rows of `devs` that contribute, in order, with their trimmed CSS. */
  function Blocks(devs: seq<Device>, settings: Settings): seq<Block>
    decreases |devs|
  {
    if devs == [] then []
    else
      (match Fragment(settings, devs[0].setting)
       case Some(code) => [Block(devs[0], code)]
       case None => [])
      + Blocks(devs[1..], settings)
  }

  /** A media block: ` @media (max-width: Npx) { css }`. */
  function Wrapped(b: Block): string {
    " @media (max-width: " + IntToString(b.device.value) + "px) { " + b.css + " }"
  }

  function WrappedAll(blocks: seq<Block>): seq<string>
  {
    seq(|blocks|, i requires 0 <= i < |blocks| => Wrapped(blocks[i]))
  }

  /** The desktop piece, when the desktop setting contributes: its trimmed CSS, unwrapped. */
  function DesktopPieces(settings: Settings): seq<string> {
    match Fragment(settings, DesktopSetting)
    case Some(code) => [code]
    case None => []
  }

  /** The breakpoint blocks in merge order: contributing rows of the sorted breakpoint rows. */
  function MergeBlocks(settings: Settings, bps: seq<Breakpoint>): seq<Block> {
    Blocks(SortDesc(BreakpointDevices(bps), ValueOf), settings)
  }

  /** Rows whose media opener is the one their value calls for. */
  ghost predicate BreakpointRows(devs: seq<Device>) {
    forall i :: 0 <= i < |devs| ==> devs[i].media == MediaQuery(devs[i].value)
  }

  /** Integer-keyed rows contribute exactly their wrapped blocks. */
  lemma {:induction false} IndexedParts(devs: seq<Device>, es: seq<Entry>, settings: Settings)
    requires BreakpointRows(devs)
    requires |es| == |devs| && forall i :: 0 <= i < |es| ==> es[i].key.IntKey? && es[i].device == devs[i]
    ensures Parts(es, settings) == WrappedAll(Blocks(devs, settings))
    decreases |devs|
  {
    if devs != [] {
      IndexedParts(devs[1..], es[1..], settings);
      PartsAppend([es[0]], es[1..], settings);
      assert es == [es[0]] + es[1..];
      IndexedHead(devs[0], es[0], settings);
      WrappedAllAppend(BlocksHead(devs[0], settings), Blocks(devs[1..], settings));
    }
  }

  /** The block, if any, one row contributes. */
  function BlocksHead(d: Device, settings: Settings): (r: seq<Block>)
    ensures Blocks([d], settings) == r
  {
    assert [d][1..] == [];
    match Fragment(settings, d.setting)
    case Some(code) => [Block(d, code)]
    case None => []
  }

  /** One integer-keyed row contributes its wrapped block, if any. */
  lemma IndexedHead(d: Device, e: Entry, settings: Settings)
    requires d.media == MediaQuery(d.value) && e.key.IntKey? && e.device == d
    ensures Parts([e], settings) == WrappedAll(BlocksHead(d, settings))
  {
    assert [e][..0] == [];
  }

  lemma WrappedAllAppend(a: seq<Block>, b: seq<Block>)
    ensures WrappedAll(a + b) == WrappedAll(a) + WrappedAll(b)
  {
  }

  /**
   * For well-formed breakpoints the pieces are: the trimmed desktop CSS, unwrapped, if it
   * is not blank; then one media block per contributing breakpoint, in descending order of
   * value, each of the form ` @media (max-width: Npx) { trimmed css }`.
   */
  lemma PartsLayout(settings: Settings, bps: seq<Breakpoint>)
    requires WellFormed(bps)
    ensures Parts(SortedDevices(bps), settings) == DesktopPieces(settings) + WrappedAll(MergeBlocks(settings, bps))
  {
    SortedDevicesShape(bps);
    var devs := SortDesc(BreakpointDevices(bps), ValueOf);
    var desk := Entry(StrKey(DesktopKey), DesktopDevice);
    SortedBreakpointRows(bps);
    IndexedParts(devs, Indexed(devs), settings);
    PartsAppend([desk], Indexed(devs), settings);
    DesktopParts(settings);
  }

  /** Sorting keeps every row's opener matched to its value. */
  lemma SortedBreakpointRows(bps: seq<Breakpoint>)
    ensures BreakpointRows(SortDesc(BreakpointDevices(bps), ValueOf))
  {
    var devs := SortDesc(BreakpointDevices(bps), ValueOf);
    SortDescPermutes(BreakpointDevices(bps), ValueOf);
    forall i | 0 <= i < |devs| ensures devs[i].media == MediaQuery(devs[i].value) {
      assert devs[i] in multiset(BreakpointDevices(bps));
    }
  }

  /** The desktop row contributes its trimmed CSS with no wrapper. */
  lemma DesktopParts(settings: Settings)
    ensures Parts([Entry(StrKey(DesktopKey), DesktopDevice)], settings) == DesktopPieces(settings)
  {
    var desk := Entry(StrKey(DesktopKey), DesktopDevice);
    assert [desk][..0] == [];
    match Fragment(settings, DesktopSetting)
    case Some(code) =>
      assert Piece(desk, code) == code;
    case None =>
  }

  /** The merged CSS, stated from the reference layout. */
  lemma MergeLayout(settings: Settings, bps: seq<Breakpoint>, uniqueSelector: string)
    requires WellFormed(bps)
    ensures var pieces := DesktopPieces(settings) + WrappedAll(MergeBlocks(settings, bps));
            MergedCss(settings, bps, uniqueSelector) ==
              if pieces == [] then None else Some(ReplaceAll(Concat(pieces), Controls.Placeholder, uniqueSelector))
  {
    PartsLayout(settings, bps);
  }

  // ---------------------------------------------------------------------------
  // The media blocks: filtering and sorting commute
  // ---------------------------------------------------------------------------

  function BlockValue(b: Block): int {
    b.device.value
  }

  lemma {:induction false} BlocksAppend(a: seq<Device>, b: seq<Device>, settings: Settings)
    ensures Blocks(a + b, settings) == Blocks(a, settings) + Blocks(b, settings)
    decreases |a|
  {
    if a == [] {
      assert a + b == b;
    } else {
      assert (a + b)[1..] == a[1..] + b;
      BlocksAppend(a[1..], b, settings);
    }
  }

  /** A block is produced exactly for a row of `devs` that contributes, with the row's trimmed CSS. */
  lemma {:induction false} BlocksMember(devs: seq<Device>, settings: Settings, b: Block)
    ensures b in Blocks(devs, settings) <==> b.device in devs && Fragment(settings, b.device.setting) == Some(b.css)
    decreases |devs|
  {
    if devs != [] {
      BlocksMember(devs[1..], settings, b);
      assert devs == [devs[0]] + devs[1..];
      assert b in BlocksHead(devs[0], settings) <==> b.device == devs[0] && Fragment(settings, b.device.setting) == Some(b.css);
    }
  }

  /** Taking the blocks of one value is taking the blocks of the rows of that value. */
  lemma {:induction false} BlocksWithKey(devs: seq<Device>, settings: Settings, v: int)
    ensures WithKey(Blocks(devs, settings), BlockValue, v) == Blocks(WithKey(devs, ValueOf, v), settings)
    decreases |devs|
  {
    if devs != [] {
      var d := devs[0];
      var head := BlocksHead(d, settings);
      BlocksWithKey(devs[1..], settings, v);
      WithKeyAppend(head, Blocks(devs[1..], settings), BlockValue, v);
      var keep := if ValueOf(d) == v then [d] else [];
      BlocksAppend(keep, WithKey(devs[1..], ValueOf, v), settings);
      assert WithKey(head, BlockValue, v) == Blocks(keep, settings) by {
        if head != [] {
          assert head[1..] == [];
        }
      }
    }
  }

  /** The blocks of rows sorted by value are sorted by value too. */
  lemma {:induction false} BlocksSortedDesc(devs: seq<Device>, settings: Settings)
    requires SortedDesc(devs, ValueOf)
    ensures SortedDesc(Blocks(devs, settings), BlockValue)
    decreases |devs|
  {
    if devs != [] {
      var rest := Blocks(devs[1..], settings);
      var head := BlocksHead(devs[0], settings);
      assert SortedDesc(devs[1..], ValueOf) by {
        forall i, j | 0 <= i < j < |devs[1..]| ensures ValueOf(devs[1..][i]) >= ValueOf(devs[1..][j]) {
          assert devs[1..][i] == devs[i + 1] && devs[1..][j] == devs[j + 1];
        }
      }
      BlocksSortedDesc(devs[1..], settings);
      forall i | 0 <= i < |rest| ensures BlockValue(rest[i]) <= ValueOf(devs[0]) {
        BlocksMember(devs[1..], settings, rest[i]);
        var j :| 0 <= j < |devs[1..]| && devs[1..][j] == rest[i].device;
        assert devs[j + 1] == rest[i].device;
      }
      SortedAfterHead(head, rest, ValueOf(devs[0]));
    }
  }

  lemma SortedAfterHead(head: seq<Block>, rest: seq<Block>, top: int)
    requires |head| <= 1 && forall i :: 0 <= i < |head| ==> BlockValue(head[i]) == top
    requires SortedDesc(rest, BlockValue) && forall i :: 0 <= i < |rest| ==> BlockValue(rest[i]) <= top
    ensures SortedDesc(head + rest, BlockValue)
  {
    var s := head + rest;
    forall i, j | 0 <= i < j < |s| ensures BlockValue(s[i]) >= BlockValue(s[j]) {
      if i >= |head| {
        assert s[i] == rest[i - |head|] && s[j] == rest[j - |head|];
      } else {
        assert s[j] == rest[j - |head|];
      }
    }
  }

  /**
   * Skipping the blank rows after the sort is the same as skipping them before it: the media
   * blocks are the contributing breakpoints, in supply order, stably sorted by descending value.
   */
  lemma MergeBlocksSorted(settings: Settings, bps: seq<Breakpoint>)
    ensures MergeBlocks(settings, bps) == SortDesc(Blocks(BreakpointDevices(bps), settings), BlockValue)
  {
    var devs := BreakpointDevices(bps);
    var a := MergeBlocks(settings, bps);
    var b := SortDesc(Blocks(devs, settings), BlockValue);
    SortDescSorted(devs, ValueOf);
    BlocksSortedDesc(SortDesc(devs, ValueOf), settings);
    SortDescSorted(Blocks(devs, settings), BlockValue);
    forall v ensures WithKey(a, BlockValue, v) == WithKey(b, BlockValue, v) {
      BlocksWithKey(SortDesc(devs, ValueOf), settings, v);
      SortDescStable(devs, ValueOf, v);
      BlocksWithKey(devs, settings, v);
      SortDescStable(Blocks(devs, settings), BlockValue, v);
    }
    SortedUnique(a, b, BlockValue);
  }

  /** The media blocks are in descending order of pixel value. */
  lemma MergeBlocksDescending(settings: Settings, bps: seq<Breakpoint>)
    ensures SortedDesc(MergeBlocks(settings, bps), BlockValue)
  {
    MergeBlocksSorted(settings, bps);
    SortDescSorted(Blocks(BreakpointDevices(bps), settings), BlockValue);
  }

  /**
   * There is a media block with CSS `b.css` for a row exactly when the row is a breakpoint's
   * and its setting trims to that non-blank text.
   */
  lemma MergeBlocksMember(settings: Settings, bps: seq<Breakpoint>, b: Block)
    ensures b in MergeBlocks(settings, bps) <==>
            (exists i :: 0 <= i < |bps| && b.device == BreakpointDevice(bps[i])) &&
            Fragment(settings, b.device.setting) == Some(b.css)
  {
    var devs := BreakpointDevices(bps);
    assert |devs| == |bps| && forall i :: 0 <= i < |bps| ==> devs[i] == BreakpointDevice(bps[i]);
    SortDescPermutes(devs, ValueOf);
    assert b.device in SortDesc(devs, ValueOf) <==> b.device in multiset(devs);
    BlocksMember(SortDesc(devs, ValueOf), settings, b);
    assert b.device in devs <==> exists i :: 0 <= i < |bps| && b.device == BreakpointDevice(bps[i]) by {
      if exists i :: 0 <= i < |bps| && b.device == BreakpointDevice(bps[i]) {
        var i :| 0 <= i < |bps| && b.device == BreakpointDevice(bps[i]);
        assert devs[i] == b.device;
      }
    }
  }

  /** Each contributing breakpoint gives exactly one media block, and nothing else does. */
  lemma MergeBlocksCount(settings: Settings, bps: seq<Breakpoint>)
    ensures |MergeBlocks(settings, bps)| == |Blocks(BreakpointDevices(bps), settings)|
    ensures multiset(MergeBlocks(settings, bps)) == multiset(Blocks(BreakpointDevices(bps), settings))
  {
    MergeBlocksSorted(settings, bps);
    SortDescSorted(Blocks(BreakpointDevices(bps), settings), BlockValue);
    SortDescPermutes(Blocks(BreakpointDevices(bps), settings), BlockValue);
  }

  /** A contributing breakpoint row's setting is non-blank; a blank one contributes no block. */
  lemma {:induction false} BlocksEmptyIff(devs: seq<Device>, settings: Settings)
    ensures Blocks(devs, settings) == [] <==>
            forall i :: 0 <= i < |devs| ==> Fragment(settings, devs[i].setting).None?
    decreases |devs|
  {
    if devs != [] {
      BlocksEmptyIff(devs[1..], settings);
      assert forall i :: 0 < i < |devs| ==> devs[1..][i - 1] == devs[i];
    }
  }

  /**
   * With well-formed breakpoints, the merger returns nothing exactly when the desktop CSS
   * and every breakpoint's CSS are missing or blank.
   */
  lemma MergedNoneIffBlankInputs(settings: Settings, bps: seq<Breakpoint>, uniqueSelector: string)
    requires WellFormed(bps)
    ensures MergedCss(settings, bps, uniqueSelector).None? <==>
            Fragment(settings, DesktopSetting).None? &&
            forall i :: 0 <= i < |bps| ==> Fragment(settings, SettingKey(bps[i].labelText)).None?
  {
    var devs := BreakpointDevices(bps);
    assert |devs| == |bps| && forall i :: 0 <= i < |bps| ==> devs[i].setting == SettingKey(bps[i].labelText);
    var blocks := MergeBlocks(settings, bps);
    var pieces := DesktopPieces(settings) + WrappedAll(blocks);
    assert |WrappedAll(blocks)| == |blocks|;
    assert pieces == [] <==> DesktopPieces(settings) == [] && blocks == [];
    assert DesktopPieces(settings) == [] <==> Fragment(settings, DesktopSetting).None?;
    MergeBlocksCount(settings, bps);
    assert blocks == [] <==> Blocks(devs, settings) == [];
    BlocksEmptyIff(devs, settings);
    MergeLayout(settings, bps, uniqueSelector);
  }

  // ---------------------------------------------------------------------------
  // The selector substitution
  // ---------------------------------------------------------------------------

  /** A block with every `selector` in its CSS replaced. */
  function SubstBlock(b: Block, uniqueSelector: string): Block {
    Block(b.device, ReplaceAll(b.css, Controls.Placeholder, uniqueSelector))
  }

  function SubstBlocks(blocks: seq<Block>, uniqueSelector: string): seq<Block>
  {
    seq(|blocks|, i requires 0 <= i < |blocks| => SubstBlock(blocks[i], uniqueSelector))
  }

  /** The media opener holds no `s`, the first letter of the placeholder. */
  lemma MediaQueryNoS(value: int)
    ensures forall k :: 0 <= k < |MediaQuery(value)| ==> MediaQuery(value)[k] != Controls.Placeholder[0]
  {
    var a, n, b := " @media (max-width: ", IntToString(value), "px) { ";
    assert forall k :: 0 <= k < |a| ==> a[k] != 's';
    assert forall k :: 0 <= k < |b| ==> b[k] != 's';
    assert MediaQuery(value) == a + n + b;
  }

  /** The wrapper of a media block is left as it is; only the CSS inside changes. */
  lemma ReplaceInWrapped(b: Block, uniqueSelector: string)
    ensures ReplaceAll(Wrapped(b), Controls.Placeholder, uniqueSelector) == Wrapped(SubstBlock(b, uniqueSelector))
  {
    var open := MediaQuery(b.device.value);
    var close := " }";
    assert Wrapped(b) == open + (b.css + close);
    assert Wrapped(SubstBlock(b, uniqueSelector)) == open + (ReplaceAll(b.css, Controls.Placeholder, uniqueSelector) + close);
    MediaQueryNoS(b.device.value);
    ReplaceAllSkipsPrefix(open, b.css + close, Controls.Placeholder, uniqueSelector);
    assert forall k :: 0 <= k < |Controls.Placeholder| ==> Controls.Placeholder[k] != ' ';
    ReplaceAllAppend(b.css, close, Controls.Placeholder, uniqueSelector);
    assert !Contains(close, Controls.Placeholder) by {
      assert !Contains(close[1..][1..], Controls.Placeholder);
    }
    ReplaceAllAbsent(close, Controls.Placeholder, uniqueSelector);
  }

  lemma ReplaceEachWrapped(blocks: seq<Block>, uniqueSelector: string)
    ensures ReplaceEach(WrappedAll(blocks), Controls.Placeholder, uniqueSelector) == WrappedAll(SubstBlocks(blocks, uniqueSelector))
  {
    forall i | 0 <= i < |blocks|
      ensures ReplaceAll(WrappedAll(blocks)[i], Controls.Placeholder, uniqueSelector) == WrappedAll(SubstBlocks(blocks, uniqueSelector))[i]
    {
      ReplaceInWrapped(blocks[i], uniqueSelector);
    }
  }

  /**
   * With well-formed breakpoints, the merged CSS is: the desktop CSS and then each media
   * block, with `selector` replaced inside each device's trimmed CSS and nowhere else; no
   * occurrence of `selector` spans two pieces, and the `@media` wrappers are not touched.
   */
  lemma MergedCssSubstitution(settings: Settings, bps: seq<Breakpoint>, uniqueSelector: string)
    requires WellFormed(bps)
    ensures var desktop := DesktopPieces(settings);
            var blocks := MergeBlocks(settings, bps);
            MergedCss(settings, bps, uniqueSelector) ==
              if desktop == [] && blocks == [] then None
              else Some(Concat(ReplaceEach(desktop, Controls.Placeholder, uniqueSelector)
                               + WrappedAll(SubstBlocks(blocks, uniqueSelector))))
  {
    MergeLayout(settings, bps, uniqueSelector);
    LayoutSubstitution(DesktopPieces(settings), MergeBlocks(settings, bps), uniqueSelector);
  }

  /** Substitution in the layout of at most one unwrapped piece followed by media blocks. */
  lemma LayoutSubstitution(desktop: seq<string>, blocks: seq<Block>, uniqueSelector: string)
    requires |desktop| <= 1
    ensures ReplaceAll(Concat(desktop + WrappedAll(blocks)), Controls.Placeholder, uniqueSelector) ==
            Concat(ReplaceEach(desktop, Controls.Placeholder, uniqueSelector) + WrappedAll(SubstBlocks(blocks, uniqueSelector)))
  {
    var pieces := desktop + WrappedAll(blocks);
    PiecesStartWithSpace(desktop, blocks);
    ReplaceAllConcat(pieces, Controls.Placeholder, uniqueSelector);
    ReplaceEachWrapped(blocks, uniqueSelector);
    ReplaceEachAppend(desktop, WrappedAll(blocks), Controls.Placeholder, uniqueSelector);
  }

  /** Every piece after the first begins with a space, which the placeholder does not contain. */
  lemma PiecesStartWithSpace(desktop: seq<string>, blocks: seq<Block>)
    requires |desktop| <= 1
    ensures var pieces := desktop + WrappedAll(blocks);
            forall i :: 0 < i < |pieces| ==> pieces[i] == [] || forall k :: 0 <= k < |Controls.Placeholder| ==> Controls.Placeholder[k] != pieces[i][0]
  {
    var pieces := desktop + WrappedAll(blocks);
    forall i | 0 < i < |pieces| ensures pieces[i] != [] && pieces[i][0] == ' ' {
      assert pieces[i] == Wrapped(blocks[i - |desktop|]);
    }
    assert forall k :: 0 <= k < |Controls.Placeholder| ==> Controls.Placeholder[k] != ' ';
  }

  lemma ReplaceEachAppend(a: seq<string>, b: seq<string>, p: string, rep: string)
    requires p != []
    ensures ReplaceEach(a + b, p, rep) == ReplaceEach(a, p, rep) + ReplaceEach(b, p, rep)
  {
  }

  // ---------------------------------------------------------------------------
  // Supply order and key agreement
  // ---------------------------------------------------------------------------

  lemma BreakpointDevicesAppend(a: seq<Breakpoint>, b: seq<Breakpoint>)
    ensures BreakpointDevices(a + b) == BreakpointDevices(a) + BreakpointDevices(b)
  {
  }

  /** Reordering the breakpoints reorders their rows the same way. */
  lemma {:induction false} BreakpointDevicesMultiset(bps1: seq<Breakpoint>, bps2: seq<Breakpoint>)
    requires multiset(bps1) == multiset(bps2)
    ensures multiset(BreakpointDevices(bps1)) == multiset(BreakpointDevices(bps2))
    decreases |bps1|
  {
    if bps1 == [] {
      assert |bps2| == |multiset(bps2)| == 0;
    } else {
      var n := |bps1| - 1;
      var x := bps1[n];
      assert bps1 == bps1[..n] + [x];
      assert x in multiset(bps2);
      var j :| 0 <= j < |bps2| && bps2[j] == x;
      var before, after := bps2[..j], bps2[j + 1..];
      assert bps2 == before + ([x] + after);
      assert multiset(bps1[..n]) + multiset{x} == multiset(before + after) + multiset{x} by {
        assert multiset(bps2) == multiset(before) + multiset{x} + multiset(after);
        assert multiset(bps1) == multiset(bps1[..n]) + multiset{x};
        assert multiset(before + after) == multiset(before) + multiset(after);
      }
      MultisetCancel(multiset(bps1[..n]), multiset(before + after), x);
      BreakpointDevicesMultiset(bps1[..n], before + after);
      BreakpointDevicesAppend(bps1[..n], [x]);
      BreakpointDevicesAppend(before, [x] + after);
      BreakpointDevicesAppend([x], after);
      BreakpointDevicesAppend(before, after);
    }
  }

  lemma MultisetCancel<T>(m1: multiset<T>, m2: multiset<T>, x: T)
    requires m1 + multiset{x} == m2 + multiset{x}
    ensures m1 == m2
  {
    forall y ensures m1[y] == m2[y] {
      assert (m1 + multiset{x})[y] == (m2 + multiset{x})[y];
    }
  }

  /**
   * When no two breakpoints share a pixel value, the merged CSS does not depend on the order
   * in which Elementor supplies the breakpoints.
   */
  lemma MergeIgnoresSupplyOrder(settings: Settings, bps1: seq<Breakpoint>, bps2: seq<Breakpoint>,
                                uniqueSelector: string)
    requires WellFormed(bps1) && WellFormed(bps2)
    requires multiset(bps1) == multiset(bps2)
    requires forall i, j :: 0 <= i < j < |bps1| ==> bps1[i].value != bps1[j].value
    ensures MergedCss(settings, bps1, uniqueSelector) == MergedCss(settings, bps2, uniqueSelector)
  {
    MergeLayout(settings, bps1, uniqueSelector);
    MergeLayout(settings, bps2, uniqueSelector);
    BreakpointDevicesMultiset(bps1, bps2);
    SortDescIgnoresOrder(BreakpointDevices(bps1), BreakpointDevices(bps2), ValueOf);
  }

  /** The merger reads exactly the CSS keys the control panel writes, desktop included. */
  lemma SettingKeysAgree(b: Breakpoint)
    ensures BreakpointDevice(b).setting == SettingKey(b.labelText) == Controls.ControlKeysFor(b.labelText).css
    ensures DesktopDevice.setting == Controls.ControlKeysFor(Controls.DesktopLabel).css
  {
    Controls.DesktopKeys();
  }

  // ---------------------------------------------------------------------------
  // `$device != 'desktop'` under PHP 7
  // ---------------------------------------------------------------------------

  /**
   * `$device != 'desktop'` as PHP 7 evaluates it: an integer compared with a non-numeric
   * string is compared with the string's integer value, 0, so the key 0 counts as desktop.
   */
  predicate NotDesktopPhp7(k: ArrayKey) {
    match k
    case StrKey(s) => s != DesktopKey
    case IntKey(i) => i != 0
  }

  /** The piece a row contributes when the guard is evaluated as PHP 7 does. */
  function PiecePhp7(e: Entry, css: string): string {
    e.device.media + css + (if NotDesktopPhp7(e.key) then " }" else "")
  }

  /**
   * Under PHP 7 the first breakpoint row after the sort, whose key is 0, gets its media
   * opener but not its closing ` }`; under PHP 8 it is closed like every other row.
   */
  lemma Php7LeavesFirstBlockOpen(bps: seq<Breakpoint>, css: string)
    requires WellFormed(bps) && bps != []
    ensures |SortedDevices(bps)| > 1 &&
            var e := SortedDevices(bps)[1];
            e.key == IntKey(0) && e.device.media != "" &&
            PiecePhp7(e, css) == e.device.media + css &&
            Piece(e, css) == e.device.media + css + " }"
  {
    SortedDevicesShape(bps);
    var devs := SortDesc(BreakpointDevices(bps), ValueOf);
    SortDescSorted(BreakpointDevices(bps), ValueOf);
    SortedBreakpointRows(bps);
    assert devs[0].media == MediaQuery(devs[0].value);
  }
}
