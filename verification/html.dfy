/**
 The element record every tag helper rewrites: the Razor `TagHelperContext`
 and `TagHelperOutput` of one element, folded into one immutable value.
 */
module Html {
  import opened Wrappers
  import Strings

  /** An attribute collection. Names compare case-insensitively, so each is
      stored under its folded form; a later write to the same name wins. */
  type Attrs = map<string, string>

  /** Every key is stored in folded form. */
  predicate WellKeyed(a: Attrs) {
    forall k | k in a :: Strings.Lower(k) == k
  }

  /** The value of attribute `name`, compared case-insensitively. A
      minimized attribute (no value) is present with the value "". */
  function GetAttr(a: Attrs, name: string): Option<string> {
    var k := Strings.Lower(name);
    if k in a then Some(a[k]) else None
  }

  /** `TagHelperAttributeList.ContainsName`. */
  predicate HasAttr(a: Attrs, name: string) {
    Strings.Lower(name) in a
  }

  /** `TagHelperAttributeList.SetAttribute`: replaces an attribute of the
      same name, or adds one. */
  function SetAttr(a: Attrs, name: string, value: string): (r: Attrs)
    ensures GetAttr(r, name) == Some(value)
    ensures forall other | Strings.Lower(other) != Strings.Lower(name) :: GetAttr(r, other) == GetAttr(a, other)
    ensures WellKeyed(a) ==> WellKeyed(r)
  {
    Strings.LowerIdempotent(name);
    a[Strings.Lower(name) := value]
  }

  /** `TagRenderMode` of a `TagBuilder`. */
  datatype RenderMode = Normal | SelfClosing

  /** A call into `IHtmlHelper`; its HTML is left uninterpreted. */
  datatype HelperCall =
    | EditorCall(expression: string, htmlAttributes: Attrs)
    | ValidationMessageCall(expression: string, message: string, htmlAttributes: Attrs)

  /** One piece of a content buffer. */
  datatype Fragment =
      /** HTML written verbatim (`AppendHtml`, `SetHtmlContent`). */
    | Raw(html: string)
      /** Text HTML-encoded when rendered (`Append`). */
    | Encoded(text: string)
      /** A `TagBuilder`: tag, attributes, inner content, render mode. */
    | Built(tag: string, attributes: Attrs, inner: seq<Fragment>, mode: RenderMode)
      /** `Environment.NewLine`, as written by `AppendLine`. */
    | LineBreak
      /** `<script>`, then each line followed by a new line, then `</script>`. */
    | Script(lines: seq<string>)
      /** Whatever `IHtmlHelper` renders for the call. */
    | HelperOutput(call: HelperCall)

  /** Keys and values of `TagHelperContext.Items`: the authorization
      helper's sentinel objects, or anything else other helpers store. */
  datatype ItemKey = AuthzSuppressedKey | OtherKey(name: string)
  datatype ItemValue = AuthzSuppressedValue | OtherValue(name: string)

  /** The state of one element while its tag helpers run.
      - `tag`: `TagHelperOutput.TagName`; None once the output is suppressed.
      - `attrs`: the output attributes; `allAttrs`: the context's `AllAttributes`.
      - `child`: what `GetChildContentAsync` yields.
      - `content`: `TagHelperOutput.Content`; None while never written, in
        which case the element's own child content is rendered.
      - `postContent`: `TagHelperOutput.PostContent`.
      - `items`: `TagHelperContext.Items`.
      - `suppressedByIf`: whether the conditional-rendering helper, which runs
        earlier, suppressed the element. */
  datatype Element = Element(
    tag: Option<string>,
    attrs: Attrs,
    allAttrs: Attrs,
    child: string,
    content: Option<seq<Fragment>>,
    postContent: seq<Fragment>,
    items: map<ItemKey, ItemValue>,
    suppressedByIf: bool)

  /** `SuppressedByAspAuthz`: the authorization sentinel is in `Items`. */
  predicate SuppressedByAspAuthz(e: Element) {
    AuthzSuppressedKey in e.items && e.items[AuthzSuppressedKey] == AuthzSuppressedValue
  }

  /** The guard every helper starts with: suppressed by the conditional
      helper or by the authorization helper. */
  predicate Suppressed(e: Element) {
    e.suppressedByIf || SuppressedByAspAuthz(e)
  }

  /** The fragments already written to a content buffer. */
  function Written(c: Option<seq<Fragment>>): seq<Fragment> {
    if c.Some? then c.value else []
  }

  /** Appending to `Content` marks it written and keeps what was there. */
  function AppendContent(c: Option<seq<Fragment>>, f: seq<Fragment>): (r: Option<seq<Fragment>>)
    ensures r.Some? && |r.value| == |Written(c)| + |f|
    ensures r.value[..|Written(c)|] == Written(c) && r.value[|Written(c)|..] == f
  {
    Some(Written(c) + f)
  }

  /** `TagHelperOutput.SuppressOutput`: no tag, and every buffer cleared. */
  function SuppressOutput(e: Element): (r: Element)
    ensures r.tag == None && r.content == Some([]) && r.postContent == []
    ensures r.attrs == e.attrs && r.allAttrs == e.allAttrs && r.child == e.child
    ensures r.items == e.items && r.suppressedByIf == e.suppressedByIf
  {
    e.(tag := None, content := Some([]), postContent := [])
  }
}
