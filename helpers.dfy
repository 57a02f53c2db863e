/**
 * `filterNonHtmlAttrs`, which keeps of a component's props only those a
 * native DOM element accepts, and `assert`.
 */
module Helpers {
  import opened Wrappers
  import opened Text

  /** `VALID_HTML_ATTRS`: global and form HTML attributes. */
  const HtmlAttrs: set<string> := {
    "accept", "accessKey", "alt", "aria", "as", "autoCapitalize", "autoComplete", "autoFocus",
    "capture", "checked", "className", "contentEditable", "contextMenu", "controls", "crossOrigin",
    "dangerouslySetInnerHTML", "data", "dir", "disabled", "download", "draggable", "form",
    "formAction", "formEncType", "formMethod", "formNoValidate", "formTarget", "height", "hidden",
    "href", "hrefLang", "id", "is", "isMap", "inert", "key", "lang", "list", "loop", "max",
    "maxLength", "media", "min", "minLength", "multiple", "muted", "name", "pattern",
    "placeholder", "readOnly", "required", "role", "size", "slot", "spellCheck", "src", "srcSet",
    "step", "style", "tabIndex", "target", "title", "translate", "type", "useMap", "value",
    "width", "ref", "children", "class", "char", "charOff", "unselectable", "inputMode"
  }

  /** `VALID_TABLE_ATTRS`: table cell attributes. */
  const TableAttrs: set<string> := {
    "colSpan", "rowSpan", "headers", "abbr", "scope", "align", "valign"
  }

  /** `VALID_SVG_ATTRS`: SVG presentation attributes. */
  const SvgAttrs: set<string> := {
    "viewBox", "fill", "stroke", "strokeWidth", "strokeLinecap", "strokeLinejoin",
    "strokeDasharray", "strokeDashoffset", "strokeOpacity", "fillOpacity", "opacity",
    "pointerEvents", "focusable", "x", "y", "x1", "x2", "y1", "y2", "cx", "cy", "r", "rx", "ry",
    "d", "points", "height", "transform", "xmlns", "preserveAspectRatio", "mask", "clipPath",
    "pathLength", "markerStart", "markerMid", "markerEnd", "refX", "refY", "dominantBaseline",
    "textAnchor"
  }

  /** `VALID_EVENT_ATTRS`: React event handler props. */
  const EventAttrs: set<string> := {
    "onCopy", "onCut", "onPaste", "onCompositionEnd", "onCompositionStart", "onCompositionUpdate",
    "onFocus", "onBlur", "onChange", "onInput", "onInvalid", "onReset", "onSubmit", "onKeyDown",
    "onKeyPress", "onKeyUp", "onClick", "onContextMenu", "onDoubleClick", "onMouseDown",
    "onMouseEnter", "onMouseLeave", "onMouseMove", "onMouseOut", "onMouseOver", "onMouseUp",
    "onDrag", "onDragEnd", "onDragEnter", "onDragExit", "onDragLeave", "onDragOver", "onDragStart",
    "onDrop", "onPointerDown", "onPointerMove", "onPointerUp", "onPointerCancel", "onPointerEnter",
    "onPointerLeave", "onPointerOver", "onPointerOut", "onGotPointerCapture",
    "onLostPointerCapture", "onSelect", "onTouchCancel", "onTouchEnd", "onTouchMove",
    "onTouchStart", "onScroll", "onWheel", "onAbort", "onCanPlay", "onCanPlayThrough",
    "onDurationChange", "onEmptied", "onEncrypted", "onEnded", "onLoadedData", "onLoadedMetadata",
    "onLoadStart", "onPause", "onPlay", "onPlaying", "onProgress", "onRateChange", "onSeeked",
    "onSeeking", "onStalled", "onSuspend", "onTimeUpdate", "onVolumeChange", "onWaiting", "onLoad",
    "onError"
  }

  /** `VALID_DOM_ELEMENT_ATTRS`: the four sets together. */
  const DomAttrs: set<string> := HtmlAttrs + TableAttrs + SvgAttrs + EventAttrs

  /** A prop name a DOM element accepts: one of the known attributes, or a `data-*` or `aria-*` one. */
  predicate Accepts(known: set<string>, name: string) {
    name in known || StartsWith(name, "data-") || StartsWith(name, "aria-")
  }

  /** One `[name, value]` pair of `Object.entries(attrs)`. */
  datatype Attr<V> = Attr(name: string, value: V)

  /** The names of a list of props. */
  function Names<V>(attrs: seq<Attr<V>>): (r: seq<string>)
    ensures |r| == |attrs| && forall i :: 0 <= i < |attrs| ==> r[i] == attrs[i].name
  {
    seq(|attrs|, i requires 0 <= i < |attrs| => attrs[i].name)
  }

  /** The props `filterNonHtmlAttrs` keeps, in their order. */
  function DomProps<V>(known: set<string>, attrs: seq<Attr<V>>): (r: seq<Attr<V>>)
    ensures |r| <= |attrs|
    ensures forall i :: 0 <= i < |r| ==> r[i] in attrs && Accepts(known, r[i].name)
    ensures forall i :: 0 <= i < |attrs| && Accepts(known, attrs[i].name) ==> attrs[i] in r
  {
    if attrs == [] then []
    else
      var rest := DomProps(known, attrs[1..]);
      assert forall i :: 1 <= i < |attrs| ==> attrs[i] == attrs[1..][i - 1];
      (if Accepts(known, attrs[0].name) then [attrs[0]] else []) + rest
  }

  /**
   * `filterNonHtmlAttrs`: the reduce over the entries of the props, copying
   * each accepted one, value and all, into the result.
   */
  method FilterNonHtmlAttrs<V>(attrs: seq<Attr<V>>) returns (allowed: seq<Attr<V>>)
    ensures allowed == DomProps(DomAttrs, attrs)
  {
    allowed := FilterKnown(DomAttrs, attrs);
  }

  /** The reduce itself, over any set of known names. */
  method FilterKnown<V>(known: set<string>, attrs: seq<Attr<V>>) returns (allowed: seq<Attr<V>>)
    ensures allowed == DomProps(known, attrs)
  {
    allowed := [];
    for i := 0 to |attrs|
      invariant allowed == DomProps(known, attrs[..i])
    {
      var attr := attrs[i];
      assert attrs[..i + 1] == attrs[..i] + [attr];
      DomPropsAppend(known, attrs[..i], [attr]);
      if Accepts(known, attr.name) {
        allowed := allowed + [attr];
      }
    }
    assert attrs[..|attrs|] == attrs;
  }

  /** `assert`: the error thrown, if the condition does not hold. */
  function Assert(condition: bool, message: string): (thrown: Option<string>)
    ensures thrown.None? <==> condition
    ensures thrown.Some? ==> thrown.value == message
  {
    if condition then None else Some(message)
  }

  // ---------------------------------------------------------------------------
  // properties

  /** The props of two lists are filtered one list after the other. */
  lemma {:induction false} DomPropsAppend<V>(known: set<string>, a: seq<Attr<V>>, b: seq<Attr<V>>)
    ensures DomProps(known, a + b) == DomProps(known, a) + DomProps(known, b)
  {
    if a == [] {
      assert a + b == b;
    } else {
      assert (a + b)[0] == a[0];
      assert (a + b)[1..] == a[1..] + b;
      DomPropsAppend(known, a[1..], b);
    }
  }

  /** Filtering twice is filtering once. */
  lemma {:induction false} DomPropsIdempotent<V>(known: set<string>, attrs: seq<Attr<V>>)
    ensures DomProps(known, DomProps(known, attrs)) == DomProps(known, attrs)
  {
    if attrs != [] {
      DomPropsIdempotent(known, attrs[1..]);
      var head := if Accepts(known, attrs[0].name) then [attrs[0]] else [];
      DomPropsAppend(known, head, DomProps(known, attrs[1..]));
    }
  }

  /** The names kept are names of the input: the filter never invents a prop. */
  lemma NamesKept<V>(known: set<string>, attrs: seq<Attr<V>>)
    ensures forall n :: n in Names(DomProps(known, attrs)) ==> n in Names(attrs) && Accepts(known, n)
  {
    var r := DomProps(known, attrs);
    forall n | n in Names(r) ensures n in Names(attrs) && Accepts(known, n) {
      var i :| 0 <= i < |r| && Names(r)[i] == n;
      assert r[i] in attrs;
      var j :| 0 <= j < |attrs| && attrs[j] == r[i];
      assert Names(attrs)[j] == n;
    }
  }

  /** `className`, `onClick` and `viewBox` are DOM attributes: their props are passed on with their values. */
  lemma KnownNamesKept<V>(u: V, v: V, w: V)
    ensures DomProps(DomAttrs, [Attr("className", u), Attr("onClick", v), Attr("viewBox", w)])
      == [Attr("className", u), Attr("onClick", v), Attr("viewBox", w)]
  {
    KnownNames();
    KnownNamesKeptBy(DomAttrs, u, v, w);
  }

  lemma KnownNamesKeptBy<V>(known: set<string>, u: V, v: V, w: V)
    requires "className" in known && "onClick" in known && "viewBox" in known
    ensures DomProps(known, [Attr("className", u), Attr("onClick", v), Attr("viewBox", w)])
      == [Attr("className", u), Attr("onClick", v), Attr("viewBox", w)]
  {
    var attrs := [Attr("className", u), Attr("onClick", v), Attr("viewBox", w)];
    forall i | 0 <= i < |attrs| ensures Accepts(known, attrs[i].name) {
    }
    AllAcceptedKept(known, attrs);
  }

  /** `className` is an HTML attribute, `onClick` an event handler and `viewBox` an SVG attribute. */
  lemma KnownNames()
    ensures "className" in DomAttrs && "onClick" in DomAttrs && "viewBox" in DomAttrs
  {
    assert "className" in HtmlAttrs;
    assert "onClick" in EventAttrs;
    assert "viewBox" in SvgAttrs;
  }

  /** A list of accepted props passes the filter whole. */
  lemma {:induction false} AllAcceptedKept<V>(known: set<string>, attrs: seq<Attr<V>>)
    requires forall i :: 0 <= i < |attrs| ==> Accepts(known, attrs[i].name)
    ensures DomProps(known, attrs) == attrs
  {
    if attrs != [] {
      AllAcceptedKept(known, attrs[1..]);
      assert attrs == [attrs[0]] + attrs[1..];
    }
  }

  /** A prop whose name is not known and has neither prefix is dropped: `$color` never reaches the DOM. */
  lemma UnknownDropped<V>(known: set<string>, attrs: seq<Attr<V>>, i: int)
    requires 0 <= i < |attrs| && attrs[i].name !in known
    requires !StartsWith(attrs[i].name, "data-") && !StartsWith(attrs[i].name, "aria-")
    ensures forall a :: a in DomProps(known, attrs) ==> a.name != attrs[i].name
  {
  }

  /** Every `data-*` and `aria-*` prop is kept, whatever the known names. */
  lemma DataAndAriaKept(known: set<string>, suffix: string)
    ensures Accepts(known, "data-" + suffix) && Accepts(known, "aria-" + suffix)
  {
    assert ("data-" + suffix)[..5] == "data-";
    assert ("aria-" + suffix)[..5] == "aria-";
  }
}
