/**
 * The settings keys `register_controls` creates for a device: a device key derived from the
 * breakpoint label (lower-cased, each run of whitespace turned into `_`) appended to fixed
 * prefixes. The control panel itself is not modelled; only the keys it writes.
 */
module Controls {
  import opened Strings

  /**
   * The word the control's help text tells authors to write for the element itself; both the
   * merger and the previewer replace it by the element's selector.
   */
  const Placeholder := "selector"

  /** The label `register_controls` gives the desktop row it adds after the active breakpoints. */
  const DesktopLabel := "desktop"

  /** `$key_css`: `strtolower` of the label, then `preg_replace('/\s+/', '_', ...)`. */
  function DeviceKey(labelText: string): (r: string)
    ensures forall k :: 0 <= k < |r| ==> !IsSpace(r[k])
    ensures NoCapitals(r)
  {
    LowerNoCapitals(labelText);
    CollapseKeepsLower(ToLower(labelText));
    CollapseSpaces(ToLower(labelText))
  }

  /** The four keys created for one device tab. */
  datatype ControlKeys = ControlKeys(tab: string, title: string, value: string, css: string)

  /**
   * The tab, heading, threshold-number and CSS-code control keys for the device with this
   * label. The four never collide, so no control of a tab overwrites another's setting.
   */
  function ControlKeysFor(labelText: string): (r: ControlKeys)
    ensures r.tab != r.title && r.tab != r.value && r.tab != r.css
    ensures r.title != r.value && r.title != r.css && r.value != r.css
  {
    var key := DeviceKey(labelText);
    var r := ControlKeys("_custom_css_" + key, "_custom_css_f_ele_title_" + key,
                         "_custom_css_f_ele_value_" + key, "_custom_css_f_ele_css_" + key);
    assert r.title[18] == 't' && r.value[18] == 'v';
    r
  }

  /** No ASCII capital letter in `s`. */
  ghost predicate NoCapitals(s: string) {
    forall k :: 0 <= k < |s| ==> !('A' <= s[k] <= 'Z')
  }

  lemma LowerNoCapitals(s: string)
    ensures NoCapitals(ToLower(s))
  {
  }

  lemma NoCapitalsSuffix(s: string, i: nat)
    requires NoCapitals(s) && i <= |s|
    ensures NoCapitals(s[i..])
  {
    assert forall k :: 0 <= k < |s| - i ==> s[i..][k] == s[i + k];
  }

  lemma NoCapitalsCons(c: char, t: string)
    requires !('A' <= c <= 'Z') && NoCapitals(t)
    ensures NoCapitals([c] + t)
  {
    assert forall k :: 0 < k < |[c] + t| ==> ([c] + t)[k] == t[k - 1];
  }

  /** Collapsing whitespace never introduces a capital letter. */
  lemma {:induction false} CollapseKeepsLower(s: string)
    requires NoCapitals(s)
    ensures NoCapitals(CollapseSpaces(s))
    decreases |s|
  {
    if s != [] {
      NoCapitalsSuffix(s, 1);
      if IsSpace(s[0]) {
        var d := DropSpaces(s[1..]);
        NoCapitalsSuffix(s[1..], |s[1..]| - |d|);
        CollapseKeepsLower(d);
        assert CollapseSpaces(s) == ['_'] + CollapseSpaces(d);
        NoCapitalsCons('_', CollapseSpaces(d));
      } else {
        CollapseKeepsLower(s[1..]);
        assert CollapseSpaces(s) == [s[0]] + CollapseSpaces(s[1..]);
        NoCapitalsCons(s[0], CollapseSpaces(s[1..]));
      }
    }
  }

  /** A device key is a fixed point of the derivation, so re-deriving from a key changes nothing. */
  lemma DeviceKeyIdempotent(labelText: string)
    ensures DeviceKey(DeviceKey(labelText)) == DeviceKey(labelText)
  {
    var key := DeviceKey(labelText);
    assert ToLower(key) == key;
    CollapseFree(key);
  }

  /** A label made of lower-case letters only is its own device key. */
  lemma PlainLabel(labelText: string)
    requires forall k :: 0 <= k < |labelText| ==> 'a' <= labelText[k] <= 'z'
    ensures DeviceKey(labelText) == labelText
  {
    assert ToLower(labelText) == labelText;
    CollapseFree(labelText);
  }

  /** The desktop tab's keys end in `desktop` itself. */
  lemma DesktopKeys()
    ensures ControlKeysFor(DesktopLabel).css == "_custom_css_f_ele_css_desktop"
    ensures ControlKeysFor(DesktopLabel).value == "_custom_css_f_ele_value_desktop"
  {
    DesktopDeviceKey();
  }

  lemma DesktopDeviceKey()
    ensures DeviceKey(DesktopLabel) == DesktopLabel
  {
    PlainLabel(DesktopLabel);
  }
}
