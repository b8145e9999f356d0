/**
 * The editor-side previewer, `addCustomCss`, which Elementor calls as a filter on an
 * element's style text while the page is being edited.
 *
 * It takes the element's settings attributes whose key names a threshold control, orders
 * them by threshold, descending, pairs each with its CSS control, and appends the CSS of
 * the first one as it is and that of every later one inside a `@media` block. Unlike the
 * server-side merger it neither trims nor skips anything. The `selector` placeholder is
 * replaced in that text only, which is then appended to the incoming style text and handed
 * to DOMPurify, a library routine that enters as a function parameter.
 */
module Previewer {
  import opened Wrappers
  import opened Strings
  import opened StableSort
  import Controls

  /** A settings attribute value: a number or a string (other JavaScript values are not modelled). */
  datatype Attr = Num(n: int) | Text(s: string)

  /** `model.get("settings").attributes`: the keys in `Object.keys` order, with their values. */
  type Attributes = seq<(string, Attr)>

  /** What `addCustomCss` reads of the element's Backbone model. */
  datatype ElementModel = ElementModel(attributes: Attributes, elType: string, id: string)

  const ValueMarker := "_custom_css_f_ele_value"
  const DocumentType := "document"

  /** `dataAttributes[key]`, or None when the object has no such key. */
  function Lookup(attrs: Attributes, key: string): Option<Attr>
    decreases |attrs|
  {
    if attrs == [] then None else if attrs[0].0 == key then Some(attrs[0].1) else Lookup(attrs[1..], key)
  }

  /** A string JavaScript's `Number()` reads as a whole number: decimal digits, optionally after `-`. */
  predicate IsDecimalInt(s: string) {
    (s != [] && forall k :: 0 <= k < |s| ==> IsDigit(s[k])) ||
    (|s| > 1 && s[0] == '-' && forall k :: 1 <= k < |s| ==> IsDigit(s[k]))
  }

  /** The number an attribute value becomes under `-`, when it is a whole number. */
  function JsNumber(a: Attr): Option<int> {
    match a
    case Num(n) => Some(n)
    case Text(s) =>
      if s == "" then Some(0)
      else if IsDecimalInt(s) then Some(ParseInt(s))
      else None
  }

  /**
   * The values `-` reads without loss: a number as itself, the decimal rendering of a
   * number back as that number, and the empty string as 0.
   */
  lemma JsNumberReads(n: int)
    ensures JsNumber(Num(n)) == Some(n)
    ensures JsNumber(Text(IntToString(n))) == Some(n)
    ensures JsNumber(Text("")) == Some(0)
  {
    var s := IntToString(n);
    if n < 0 {
      assert s == "-" + NatToString(-n);
      assert forall k :: 1 <= k < |s| ==> s[k] == NatToString(-n)[k - 1];
    }
    assert IsDecimalInt(s);
    IntToStringRoundTrip(n);
  }

  /**
   * A value as string concatenation and template interpolation render it: a number in
   * decimal, a string as itself, a missing key as `undefined`.
   */
  function JsString(v: Option<Attr>): string {
    match v
    case None => "undefined"
    case Some(Num(n)) => IntToString(n)
    case Some(Text(s)) => s
  }

  // ---------------------------------------------------------------------------
  // The deviceValue pipeline
  // ---------------------------------------------------------------------------

  /** `Object.keys(...).filter(key => key.includes("_custom_css_f_ele_value")).map(...)`. */
  function ValueEntries(attrs: Attributes): Attributes
    decreases |attrs|
  {
    if attrs == [] then []
    else (if Contains(attrs[0].0, ValueMarker) then [attrs[0]] else []) + ValueEntries(attrs[1..])
  }

  /** Every threshold attribute holds a whole number, so the comparator is a consistent order. */
  ghost predicate ThresholdsNumeric(attrs: Attributes) {
    forall p :: p in ValueEntries(attrs) ==> JsNumber(p.1).Some?
  }

  /** The sort key of one threshold entry; 0 is never used when the thresholds are numeric. */
  function Threshold(p: (string, Attr)): int {
    match JsNumber(p.1)
    case Some(n) => n
    case None => 0
  }

  /** `deviceValue`: the threshold entries sorted by `b[keyB] - a[keyA]`, a stable descending sort. */
  function DeviceValue(attrs: Attributes): Attributes {
    SortDesc(ValueEntries(attrs), Threshold)
  }

  /**
   * `key.replace("ele_value", "ele_css")`: the first occurrence only. A key without
   * `ele_value` is kept; otherwise exactly one occurrence shrinks by two characters.
   */
  function CssKeyFor(key: string): (r: string)
    ensures !Contains(key, "ele_value") ==> r == key
    ensures Contains(key, "ele_value") ==> |r| == |key| - 2
  {
    ReplaceFirst(key, "ele_value", "ele_css")
  }

  /**
   * A key that holds `ele_value` has a first occurrence of it, and only that occurrence
   * becomes `ele_css`: the text before it and the text after it are kept.
   */
  lemma CssKeyForFirst(key: string)
    requires Contains(key, "ele_value")
    ensures exists i: nat :: FirstOccurrence(key, "ele_value", i)
    ensures forall i: nat :: FirstOccurrence(key, "ele_value", i) ==>
      CssKeyFor(key) == key[..i] + "ele_css" + key[i + 9..]
  {
    assert FirstOccurrence(key, "ele_value", IndexOf(key, "ele_value").value);
    forall i: nat | FirstOccurrence(key, "ele_value", i)
      ensures CssKeyFor(key) == key[..i] + "ele_css" + key[i + 9..]
    {
      ReplaceFirstAt(key, "ele_value", "ele_css", i);
    }
  }

  // ---------------------------------------------------------------------------
  // The forEach that builds customCss
  // ---------------------------------------------------------------------------

  /** What the entry at `index` appends: its CSS as it is at 0, inside a media block after that. */
  function Contribution(index: nat, item: (string, Attr), attrs: Attributes): string {
    var cssContent := JsString(Lookup(attrs, CssKeyFor(item.0)));
    if index == 0 then cssContent
    else " @media (max-width: " + JsString(Some(item.1)) + "px) { " + cssContent + " }"
  }

  function Contributions(deviceValue: Attributes, attrs: Attributes): seq<string>
  {
    seq(|deviceValue|, i requires 0 <= i < |deviceValue| => Contribution(i, deviceValue[i], attrs))
  }

  /** `customCss` after the forEach: the contributions, in order, with no separator. */
  function CustomCss(deviceValue: Attributes, attrs: Attributes): string {
    Concat(Contributions(deviceValue, attrs))
  }

  /** The forEach over `deviceValue`, appending to the `customCss` accumulator. */
  method BuildCustomCss(deviceValue: Attributes, dataAttributes: Attributes) returns (customCss: string)
    ensures customCss == CustomCss(deviceValue, dataAttributes)
  {
    ghost var contributions := Contributions(deviceValue, dataAttributes);
    customCss := "";
    for index := 0 to |deviceValue|
      invariant customCss == Concat(contributions[..index])
    {
      var item := deviceValue[index];
      var key := item.0;
      var cssKey := ReplaceFirst(key, "ele_value", "ele_css");
      var cssContent := JsString(Lookup(dataAttributes, cssKey));
      var piece: string;
      if index == 0 {
        piece := cssContent;
      } else {
        piece := " @media (max-width: " + JsString(Some(item.1)) + "px) { " + cssContent + " }";
      }
      assert piece == contributions[index];
      ConcatSnoc(contributions, index);
      customCss := customCss + piece;
    }
    assert contributions[..|deviceValue|] == contributions;
  }

  // ---------------------------------------------------------------------------
  // addCustomCss
  // ---------------------------------------------------------------------------

  /**
   * The placeholder's replacement: the document's `cssWrapperSelector` for a document, and
   * otherwise the element's own class under the post's class.
   */
  function SelectorFor(m: ElementModel, postId: string, cssWrapperSelector: string): (r: string)
    ensures m.elType == DocumentType ==> r == cssWrapperSelector
    ensures m.elType != DocumentType ==>
              StartsWith(r, ".elementor-" + postId + " ") && |m.id| <= |r| && r[|r| - |m.id|..] == m.id
  {
    if m.elType == DocumentType then cssWrapperSelector
    else
      var head := ".elementor-" + postId + " ";
      var r := head + ".elementor-element.elementor-element-" + m.id;
      assert r[..|head|] == head;
      r
  }

  /** Within one post, two elements that are not documents get the same selector only when their ids agree. */
  lemma SelectorIdentifiesElement(m1: ElementModel, m2: ElementModel, postId: string, cssWrapperSelector: string)
    requires m1.elType != DocumentType && m2.elType != DocumentType
    ensures SelectorFor(m1, postId, cssWrapperSelector) == SelectorFor(m2, postId, cssWrapperSelector)
            <==> m1.id == m2.id
  {
    var head := ".elementor-" + postId + " " + ".elementor-element.elementor-element-";
    var s1, s2 := SelectorFor(m1, postId, cssWrapperSelector), SelectorFor(m2, postId, cssWrapperSelector);
    assert s1 == head + m1.id && s2 == head + m2.id;
    if s1 == s2 {
      assert m1.id == s1[|head|..] == s2[|head|..] == m2.id;
    }
  }

  /**
   * `addCustomCss(css, context)`, with `modelData.postID` as `postId`, the document's
   * `cssWrapperSelector` as a parameter, and `DOMPurify.sanitize(..., { CSS: true })` as
   * `purify`. None stands for returning `undefined`.
   */
  method AddCustomCss(css: string, context: Option<ElementModel>, postId: string,
                      cssWrapperSelector: string, purify: string -> string)
    returns (r: Option<string>)
    requires context.Some? ==> ThresholdsNumeric(context.value.attributes)
    ensures context.None? ==> r.None?
    ensures context.Some? ==>
              var attrs := context.value.attributes;
              var customCss := CustomCss(DeviceValue(attrs), attrs);
              r == if customCss == "" then None
                   else Some(purify(css + ReplaceAll(customCss, Controls.Placeholder,
                                                     SelectorFor(context.value, postId, cssWrapperSelector))))
  {
    if context.None? {
      return None;
    }
    var model := context.value;
    var dataAttributes := model.attributes;
    var deviceValue := SortDesc(ValueEntries(dataAttributes), Threshold);
    var customCss := BuildCustomCss(deviceValue, dataAttributes);
    if customCss == "" {
      return None;
    }
    var selector := SelectorFor(model, postId, cssWrapperSelector);
    r := Some(purify(css + ReplaceAll(customCss, Controls.Placeholder, selector)));
  }

  // ---------------------------------------------------------------------------
  // Properties
  // ---------------------------------------------------------------------------

  /** An entry takes part exactly when it is an attribute whose key contains `_custom_css_f_ele_value`. */
  lemma {:induction false} ValueEntriesMember(attrs: Attributes, p: (string, Attr))
    ensures p in ValueEntries(attrs) <==> p in attrs && Contains(p.0, ValueMarker)
    decreases |attrs|
  {
    if attrs != [] {
      ValueEntriesMember(attrs[1..], p);
      assert attrs == [attrs[0]] + attrs[1..];
    }
  }

  /**
   * `deviceValue` holds exactly the threshold entries, ordered by threshold, descending,
   * entries with equal thresholds in `Object.keys` order.
   */
  lemma DeviceValueOrder(attrs: Attributes)
    ensures SortedDesc(DeviceValue(attrs), Threshold)
    ensures multiset(DeviceValue(attrs)) == multiset(ValueEntries(attrs))
    ensures forall v :: WithKey(DeviceValue(attrs), Threshold, v) == WithKey(ValueEntries(attrs), Threshold, v)
  {
    SortDescSorted(ValueEntries(attrs), Threshold);
    SortDescPermutes(ValueEntries(attrs), Threshold);
    forall v ensures WithKey(DeviceValue(attrs), Threshold, v) == WithKey(ValueEntries(attrs), Threshold, v) {
      SortDescStable(ValueEntries(attrs), Threshold, v);
    }
  }

  /**
   * The threshold control of every device takes part, and its CSS key is the key of the
   * same device's CSS control.
   */
  lemma CssKeyPairsControls(labelText: string)
    ensures Contains(Controls.ControlKeysFor(labelText).value, ValueMarker)
    ensures CssKeyFor(Controls.ControlKeysFor(labelText).value) == Controls.ControlKeysFor(labelText).css
  {
    var key := Controls.DeviceKey(labelText);
    ValueKeyTakesPart(key);
    ValueKeyToCssKey(key);
  }

  lemma ValueKeyTakesPart(key: string)
    ensures Contains("_custom_css_f_ele_value_" + key, ValueMarker)
  {
    var s := "_custom_css_f_ele_value_" + key;
    assert s[..|ValueMarker|] == ValueMarker;
  }

  lemma ValueKeyToCssKey(key: string)
    ensures CssKeyFor("_custom_css_f_ele_value_" + key) == "_custom_css_f_ele_css_" + key
  {
    var head, tail := "_custom_css_f_", "_" + key;
    KeyPieces();
    assert "_custom_css_f_ele_value_" + key == head + ("ele_value" + tail);
    assert "_custom_css_f_ele_css_" + key == head + "ele_css" + tail;
    assert forall k :: 0 <= k < |head| ==> head[k] != 'e';
    ReplaceFirstAfterPrefix(head, "ele_value", tail, "ele_css");
  }

  /** The value and CSS prefixes: `_custom_css_f_`, the marker, and `_`. */
  lemma KeyPieces()
    ensures "_custom_css_f_ele_value_" == "_custom_css_f_" + "ele_value" + "_"
    ensures "_custom_css_f_ele_css_" == "_custom_css_f_" + "ele_css" + "_"
  {
  }

  /** No contribution after the first is empty, whatever its CSS. */
  lemma WrappedContributionNonEmpty(index: nat, item: (string, Attr), attrs: Attributes)
    requires index > 0
    ensures |Contribution(index, item, attrs)| > 0
    ensures StartsWith(Contribution(index, item, attrs), " @media (max-width: ")
  {
  }

  lemma {:induction false} ConcatEmptyIff(parts: seq<string>)
    ensures Concat(parts) == [] <==> forall i :: 0 <= i < |parts| ==> parts[i] == []
    decreases |parts|
  {
    if parts != [] {
      ConcatEmptyIff(parts[..|parts| - 1]);
      assert forall i :: 0 <= i < |parts| - 1 ==> parts[..|parts| - 1][i] == parts[i];
    }
  }

  /**
   * The accumulated CSS is empty exactly when there is no device, or one device whose CSS
   * renders as the empty string; with two devices or more the previewer always returns text.
   */
  lemma CustomCssEmptyIff(deviceValue: Attributes, attrs: Attributes)
    ensures CustomCss(deviceValue, attrs) == "" <==>
            deviceValue == [] ||
            (|deviceValue| == 1 && JsString(Lookup(attrs, CssKeyFor(deviceValue[0].0))) == "")
  {
    var parts := Contributions(deviceValue, attrs);
    ConcatEmptyIff(parts);
    if |deviceValue| > 1 {
      WrappedContributionNonEmpty(1, deviceValue[1], attrs);
    }
  }

  /**
   * Nothing is trimmed or skipped: a later device whose CSS is missing still gets a block,
   * around the text `undefined`, and one whose CSS is empty still gets an empty block.
   */
  lemma BlankCssStillWrapped(deviceValue: Attributes, attrs: Attributes, i: nat)
    requires 0 < i < |deviceValue|
    ensures var item := deviceValue[i];
            var open := " @media (max-width: " + JsString(Some(item.1)) + "px) { ";
            (Lookup(attrs, CssKeyFor(item.0)).None? ==> Contributions(deviceValue, attrs)[i] == open + "undefined }") &&
            (Lookup(attrs, CssKeyFor(item.0)) == Some(Text("")) ==> Contributions(deviceValue, attrs)[i] == open + " }")
  {
  }

  /** A threshold entry whose threshold exceeds that of every entry with another key. */
  ghost predicate Highest(attrs: Attributes, p: (string, Attr)) {
    p in ValueEntries(attrs) &&
    forall q :: q in ValueEntries(attrs) && q.0 != p.0 ==> Threshold(q) < Threshold(p)
  }

  /**
   * When one device's threshold is the highest, that device is the unwrapped first one.
   * This is desktop only when desktop's value is the highest.
   */
  lemma HighestComesFirst(attrs: Attributes, p: (string, Attr))
    requires Highest(attrs, p)
    ensures DeviceValue(attrs) != [] && DeviceValue(attrs)[0].0 == p.0
  {
    var dv := DeviceValue(attrs);
    DeviceValueOrder(attrs);
    assert p in multiset(dv);
    var j :| 0 <= j < |dv| && dv[j] == p;
    assert dv[0] in multiset(ValueEntries(attrs));
    assert Threshold(dv[0]) >= Threshold(dv[j]);
  }

  /** The desktop control's threshold is a threshold entry, paired with the desktop CSS control. */
  lemma DesktopControlsPair()
    ensures Contains(Controls.ControlKeysFor(Controls.DesktopLabel).value, ValueMarker)
    ensures CssKeyFor(Controls.ControlKeysFor(Controls.DesktopLabel).value) == "_custom_css_f_ele_css_desktop"
  {
    CssKeyPairsControls(Controls.DesktopLabel);
    Controls.DesktopKeys();
  }
}
