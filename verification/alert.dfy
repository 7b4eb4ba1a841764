/**
 The `<alert>` helper (also any element with `alert-type`): turns the
 element into a Bootstrap alert `<div>` with an optional icon, title and
 close button, and an optional script that removes it after a delay.
 */
module Alert {
  import opened Wrappers
  import opened Html
  import Strings

  /** The bound attributes with their defaults; a null string is modelled
      as "", which the helper treats alike. */
  datatype AlertOptions = AlertOptions(
    alertType: string,
    dismissible: bool,
    autoDismiss: Option<int>,
    title: string,
    icon: string,
    cssClass: string,
    role: string)

  const Defaults := AlertOptions("info", false, None, "", "", "", "alert")

  const CloseButtonHtml := "<button type=\"button\" class=\"btn-close\" data-bs-dismiss=\"alert\" aria-label=\"Close\"></button>"

  /** The class tokens of the alert, in the order they are written: the
      base and type classes first, then the dismissal classes, then the
      extra class. */
  function ClassTokens(o: AlertOptions): (r: seq<string>)
    ensures |r| == 2 + (if o.dismissible then 3 else 0) + (if o.cssClass != "" then 1 else 0)
    ensures r[0] == "alert" && r[1] == "alert-" + o.alertType
    ensures forall t ::
              t in r <==> || t == "alert" || t == "alert-" + o.alertType
                          || (o.dismissible && t in ["alert-dismissible", "fade", "show"])
                          || (o.cssClass != "" && t == o.cssClass)
  {
    ["alert", "alert-" + o.alertType]
      + (if o.dismissible then ["alert-dismissible", "fade", "show"] else [])
      + (if o.cssClass != "" then [o.cssClass] else [])
  }

  /** The `class` attribute: the tokens joined by single spaces. */
  function ClassAttribute(o: AlertOptions): string {
    Strings.Join(ClassTokens(o), ' ')
  }

  /** When the type and the extra class are single tokens, the class
      attribute splits back into exactly the tokens. */
  lemma ClassAttributeReadsBack(o: AlertOptions)
    requires ' ' !in o.alertType && ' ' !in o.cssClass
    ensures Strings.Split(ClassAttribute(o), ' ') == ClassTokens(o)
  {
    var ts := ClassTokens(o);
    forall i | 0 <= i < |ts| ensures ' ' !in ts[i] {
      assert ts[i] in ts;
    }
    Strings.SplitJoin(ts, ' ');
  }

  /** The pieces of the alert body. */
  datatype AlertPart =
    | IconPart(iconClass: string)
    | TitlePart(text: string)
    | BreakPart
    | ChildPart(html: string)
    | ClosePart

  /** Where a part sits in the body. */
  function Rank(p: AlertPart): nat {
    match p
    case IconPart(_) => 0
    case TitlePart(_) => 1
    case BreakPart => 2
    case ChildPart(_) => 3
    case ClosePart => 4
  }

  /** The body of the alert: which parts appear, in rank order. A line
      break separates the title from the child content only when both are
      present; blank child content is dropped. */
  function Parts(o: AlertOptions, child: string): (r: seq<AlertPart>)
    ensures forall i, j | 0 <= i < j < |r| :: Rank(r[i]) < Rank(r[j])
  {
    LayoutOrdered(o, child, Strings.IsEmptyOrWhiteSpace(child));
    Layout(o, child, Strings.IsEmptyOrWhiteSpace(child))
  }

  /** `[p]` when `present`, otherwise nothing. */
  function When(present: bool, p: AlertPart): (r: seq<AlertPart>)
    ensures forall q :: q in r <==> present && q == p
  {
    if present then [p] else []
  }

  /** `Parts`, given whether the child content is blank. */
  function Layout(o: AlertOptions, child: string, blank: bool): seq<AlertPart> {
    When(o.icon != "", IconPart(o.icon))
      + When(o.title != "", TitlePart(o.title))
      + When(o.title != "" && !blank, BreakPart)
      + When(!blank, ChildPart(child))
      + When(o.dismissible, ClosePart)
  }

  lemma LayoutOrdered(o: AlertOptions, child: string, blank: bool)
    ensures var r := Layout(o, child, blank);
            forall i, j | 0 <= i < j < |r| :: Rank(r[i]) < Rank(r[j])
  {
  }

  /** Membership in five concatenated runs. */
  lemma InFive(a: seq<AlertPart>, b: seq<AlertPart>, c: seq<AlertPart>, d: seq<AlertPart>, e: seq<AlertPart>)
    ensures forall q :: q in a + b + c + d + e <==> q in a || q in b || q in c || q in d || q in e
  {
  }

  /** Whether part `p` belongs in the body: each part exactly when its
      option or content is given. */
  predicate Belongs(o: AlertOptions, child: string, blank: bool, p: AlertPart) {
    || (o.icon != "" && p == IconPart(o.icon))
    || (o.title != "" && p == TitlePart(o.title))
    || (o.title != "" && !blank && p == BreakPart)
    || (!blank && p == ChildPart(child))
    || (o.dismissible && p == ClosePart)
  }

  lemma LayoutPresent(o: AlertOptions, child: string, blank: bool)
    ensures forall p :: p in Layout(o, child, blank) <==> Belongs(o, child, blank, p)
  {
    InFive(When(o.icon != "", IconPart(o.icon)), When(o.title != "", TitlePart(o.title)),
           When(o.title != "" && !blank, BreakPart), When(!blank, ChildPart(child)), When(o.dismissible, ClosePart));
  }

  /** Each part appears exactly when its option or content is given, and
      nothing else appears. */
  lemma PartsPresent(o: AlertOptions, child: string)
    ensures forall p :: p in Parts(o, child) <==> Belongs(o, child, Strings.IsEmptyOrWhiteSpace(child), p)
  {
    LayoutPresent(o, child, Strings.IsEmptyOrWhiteSpace(child));
  }

  /** A line break sits between a title and child content. */
  lemma BreakSeparatesTitleFromChild(o: AlertOptions, child: string)
    ensures var r := Parts(o, child);
            forall i | 0 <= i < |r| && r[i] == BreakPart ::
              0 < i && r[i - 1] == TitlePart(o.title) && i + 1 < |r| && r[i + 1] == ChildPart(child)
  {
    LayoutBreak(o, child, Strings.IsEmptyOrWhiteSpace(child));
  }

  lemma LayoutBreak(o: AlertOptions, child: string, blank: bool)
    ensures var r := Layout(o, child, blank);
            forall i | 0 <= i < |r| && r[i] == BreakPart ::
              0 < i && r[i - 1] == TitlePart(o.title) && i + 1 < |r| && r[i + 1] == ChildPart(child)
  {
    var r := Layout(o, child, blank);
    var head := if o.icon != "" then [IconPart(o.icon)] else [];
    var tail := if o.dismissible then [ClosePart] else [];
    if o.title != "" && !blank {
      var mid := [TitlePart(o.title), BreakPart, ChildPart(child)];
      assert r == head + mid + tail;
      forall i | 0 <= i < |r| && r[i] == BreakPart
        ensures 0 < i && r[i - 1] == TitlePart(o.title) && i + 1 < |r| && r[i + 1] == ChildPart(child)
      {
        assert r[i] == mid[i - |head|];
      }
    } else {
      var titled := if o.title != "" then [TitlePart(o.title)] else [];
      var body := if !blank then [ChildPart(child)] else [];
      assert r == head + titled + body + tail;
      assert BreakPart !in r;
    }
  }

  /** The HTML of one part; the title is the only text that is encoded. */
  function PartHtml(p: AlertPart): seq<Fragment> {
    match p
    case IconPart(c) => [Raw("<i class=\"" + c + " me-2\"></i>")]
    case TitlePart(t) => [Raw("<strong>"), Encoded(t), Raw("</strong>")]
    case BreakPart => [Raw("<br>")]
    case ChildPart(h) => [Raw(h)]
    case ClosePart => [Raw(CloseButtonHtml)]
  }

  function Render(parts: seq<AlertPart>): (r: seq<Fragment>)
    ensures forall f | f in r :: f.Raw? || (f.Encoded? && TitlePart(f.text) in parts)
    ensures forall t | TitlePart(t) in parts :: Encoded(t) in r
    ensures forall h | ChildPart(h) in parts :: Raw(h) in r
  {
    if parts == [] then []
    else
      var rest := Render(parts[1..]);
      assert forall t | TitlePart(t) in parts[1..] :: TitlePart(t) in parts;
      assert forall h | ChildPart(h) in parts[1..] :: ChildPart(h) in parts;
      PartHtml(parts[0]) + rest
  }

  /** Rendering a body in two runs renders each run, in order. */
  lemma {:induction false} RenderConcat(a: seq<AlertPart>, b: seq<AlertPart>)
    ensures Render(a + b) == Render(a) + Render(b)
  {
    if a == [] {
      assert a + b == b;
    } else {
      assert (a + b)[1..] == a[1..] + b;
      RenderConcat(a[1..], b);
    }
  }

  /** The HTML of a part when it is present, nothing otherwise. */
  function HtmlWhen(present: bool, p: AlertPart): seq<Fragment> {
    if present then PartHtml(p) else []
  }

  lemma RenderWhen(present: bool, p: AlertPart)
    ensures Render(When(present, p)) == HtmlWhen(present, p)
  {
    if present {
      assert [p][1..] == [];
    }
  }

  /** The body is written in the helper's order: icon, encoded title, line
      break, child content, close button, each only when it applies. */
  lemma ContentInOrder(e: Element, o: AlertOptions)
    ensures var blank := Strings.IsEmptyOrWhiteSpace(e.child);
            !Suppressed(e) ==>
              Process(e, o).content == Some(
                HtmlWhen(o.icon != "", IconPart(o.icon))
                + HtmlWhen(o.title != "", TitlePart(o.title))
                + HtmlWhen(o.title != "" && !blank, BreakPart)
                + HtmlWhen(!blank, ChildPart(e.child))
                + HtmlWhen(o.dismissible, ClosePart))
  {
    var blank := Strings.IsEmptyOrWhiteSpace(e.child);
    var a := When(o.icon != "", IconPart(o.icon));
    var b := When(o.title != "", TitlePart(o.title));
    var c := When(o.title != "" && !blank, BreakPart);
    var d := When(!blank, ChildPart(e.child));
    var f := When(o.dismissible, ClosePart);
    assert Parts(o, e.child) == a + b + c + d + f;
    RenderConcat(a + b + c + d, f);
    RenderConcat(a + b + c, d);
    RenderConcat(a + b, c);
    RenderConcat(a, b);
    RenderWhen(o.icon != "", IconPart(o.icon));
    RenderWhen(o.title != "", TitlePart(o.title));
    RenderWhen(o.title != "" && !blank, BreakPart);
    RenderWhen(!blank, ChildPart(e.child));
    RenderWhen(o.dismissible, ClosePart);
  }

  /** With every option at its default, an element becomes a plain
      `<div role="alert" class="alert alert-info">` holding its child
      content, and nothing follows it. */
  lemma DefaultAlert(e: Element)
    ensures var r := Process(e, Defaults);
            !Suppressed(e) ==>
              && r.tag == Some("div")
              && GetAttr(r.attrs, "role") == Some("alert")
              && GetAttr(r.attrs, "class") == Some("alert alert-info")
              && r.content == Some(if Strings.IsEmptyOrWhiteSpace(e.child) then [] else [Raw(e.child)])
              && r.postContent == e.postContent
  {
    ContentInOrder(e, Defaults);
    var blank := Strings.IsEmptyOrWhiteSpace(e.child);
    var x := HtmlWhen(!blank, ChildPart(e.child));
    assert x == if blank then [] else [Raw(e.child)];
    assert Defaults.icon == "" && Defaults.title == "" && !Defaults.dismissible;
    assert [] + [] + [] + x + [] == x;
    DefaultClass();
  }

  lemma DefaultClass()
    ensures ClassAttribute(Defaults) == "alert alert-info"
  {
    var o := Defaults;
    assert o.alertType == "info" && !o.dismissible && o.cssClass == "";
    var ts := ClassTokens(o);
    assert "alert-" + "info" == "alert-info";
    assert ts == ["alert", "alert-info"];
    assert ts[1..] == ["alert-info"];
    assert Strings.Join(ts, ' ') == "alert" + [' '] + "alert-info";
  }

  const ScriptPrefix := "<script>setTimeout(function() { document.querySelector('[role=\""
  const ScriptMiddle := "\"]').remove(); }, "
  const ScriptSuffix := ");</script>"

  /** The auto-dismiss script: after `ms` milliseconds, remove the first
      element of the page whose role is `role`. */
  function DismissScript(role: string, ms: int): string {
    ScriptPrefix + role + ScriptMiddle + Strings.IntToDecimal(ms) + ScriptSuffix
  }

  /** The delay written in a dismiss script for `role`, if it is one. */
  function ScriptDelay(script: string, role: string): Option<int> {
    var head := ScriptPrefix + role + ScriptMiddle;
    if |script| >= |head| + |ScriptSuffix|
       && script[..|head|] == head
       && script[|script| - |ScriptSuffix|..] == ScriptSuffix
    then Strings.ParseInt(script[|head|..|script| - |ScriptSuffix|])
    else None
  }

  /** The delay reads back from the script. */
  lemma DismissDelayReadsBack(role: string, ms: int)
    ensures ScriptDelay(DismissScript(role, ms), role) == Some(ms)
  {
    var head := ScriptPrefix + role + ScriptMiddle;
    var digits := Strings.IntToDecimal(ms);
    var s := DismissScript(role, ms);
    assert s == head + digits + ScriptSuffix;
    assert s[..|head|] == head;
    assert s[|s| - |ScriptSuffix|..] == ScriptSuffix;
    assert s[|head|..|s| - |ScriptSuffix|] == digits;
    Strings.IntDecimalRoundTrip(ms);
  }

  /** The output attributes: `role` and `class` set, the others kept. */
  function AlertAttributes(a: Attrs, o: AlertOptions): (r: Attrs)
    ensures GetAttr(r, "role") == Some(o.role)
    ensures GetAttr(r, "class") == Some(ClassAttribute(o))
    ensures forall n | Strings.Lower(n) != "role" && Strings.Lower(n) != "class" :: GetAttr(r, n) == GetAttr(a, n)
  {
    var withRole := SetAttr(a, "role", o.role);
    assert Strings.Lower("class") != Strings.Lower("role") by {
      assert Strings.Lower("class")[0] == 'c';
    }
    SetAttr(withRole, "class", ClassAttribute(o))
  }

  /** `AlertTagHelper.ProcessAsync`. */
  function Process(e: Element, o: AlertOptions): (r: Element)
    ensures Suppressed(e) ==> r == e
    ensures !Suppressed(e) ==>
              && r.tag == Some("div")
              && r.attrs == AlertAttributes(e.attrs, o)
              && r.content == Some(Render(Parts(o, e.child)))
              && r.postContent == (if o.autoDismiss.Some? then [Raw(DismissScript(o.role, o.autoDismiss.value))] else e.postContent)
              && r.allAttrs == e.allAttrs && r.child == e.child && r.items == e.items
              && r.suppressedByIf == e.suppressedByIf
  {
    if Suppressed(e) then e
    else
      e.(tag := Some("div"),
         attrs := AlertAttributes(e.attrs, o),
         content := Some(Render(Parts(o, e.child))),
         postContent := if o.autoDismiss.Some? then [Raw(DismissScript(o.role, o.autoDismiss.value))] else e.postContent)
  }

  /** The title is shown, encoded, exactly when it is given, and it is the
      only text of the body that is encoded. */
  lemma TitleIsEncoded(e: Element, o: AlertOptions)
    requires !Suppressed(e)
    ensures var c := Process(e, o).content.value;
            && (Encoded(o.title) in c <==> o.title != "")
            && (forall f | f in c && !f.Raw? :: f == Encoded(o.title))
  {
    PartsPresent(o, e.child);
  }
}
