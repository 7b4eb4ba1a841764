/**
 The `<validation-message>` helper (also any element with
 `asp-validation-for`): a styled `<div>` holding either a custom message or
 the framework's validation message for a model property.
 */
module ValidationMessage {
  import opened Wrappers
  import opened Html
  import Strings

  /** The bound attributes: the property name of `asp-validation-for`
      (None when it is not given), the container classes and the custom
      message (null modelled as ""). `show-as-list` is bound but never read. */
  datatype ValidationOptions = ValidationOptions(
    forName: Option<string>,
    cssClass: string,
    showAsList: bool,
    customMessage: string)

  const Defaults := ValidationOptions(None, "mt-1 text-sm text-red-600", false, "")

  /** The call the helper makes for a property: no message override and no
      extra attributes. */
  function QueryFor(name: string): HelperCall {
    ValidationMessageCall(name, "", map[])
  }

  /** What the helper appends to the content. `renders` says whether the
      framework's validation message for a call is non-null. */
  function Added(o: ValidationOptions, renders: HelperCall -> bool): (r: seq<Fragment>)
    ensures |r| <= 1
    ensures Encoded(o.customMessage) in r <==> o.customMessage != ""
    ensures (exists c :: HelperOutput(c) in r) <==>
              o.customMessage == "" && o.forName.Some? && renders(QueryFor(o.forName.value))
    ensures forall c | HelperOutput(c) in r :: o.forName.Some? && c == QueryFor(o.forName.value)
  {
    if o.customMessage != "" then [Encoded(o.customMessage)]
    else if o.forName.Some? && renders(QueryFor(o.forName.value)) then
      var r := [HelperOutput(QueryFor(o.forName.value))];
      assert HelperOutput(QueryFor(o.forName.value)) in r;
      r
    else []
  }

  /** `ValidationMessageTagHelper.Process`. */
  function Process(e: Element, o: ValidationOptions, renders: HelperCall -> bool): (r: Element)
    ensures Suppressed(e) ==> r == e
    ensures !Suppressed(e) ==>
              && r.tag == Some("div")
              && GetAttr(r.attrs, "class") == Some(o.cssClass)
              && (forall n | Strings.Lower(n) != "class" :: GetAttr(r.attrs, n) == GetAttr(e.attrs, n))
              && r.content == (if Added(o, renders) == [] then e.content else AppendContent(e.content, Added(o, renders)))
              && r.postContent == e.postContent && r.allAttrs == e.allAttrs && r.child == e.child
              && r.items == e.items && r.suppressedByIf == e.suppressedByIf
  {
    if Suppressed(e) then e
    else
      var added := Added(o, renders);
      e.(tag := Some("div"),
         attrs := SetAttr(e.attrs, "class", o.cssClass),
         content := if added == [] then e.content else AppendContent(e.content, added))
  }

  /** A custom message wins over the property's validation message, with
      or without `asp-validation-for`, and the framework is not consulted. */
  lemma CustomMessageWins(o: ValidationOptions, renders: HelperCall -> bool, renders': HelperCall -> bool, forName: Option<string>)
    requires o.customMessage != ""
    ensures Added(o, renders) == Added(o.(forName := forName), renders') == [Encoded(o.customMessage)]
  {
  }

  /** With nothing to show, the element's own child content is rendered
      inside the styled container. */
  lemma NothingToShowKeepsChildContent(e: Element, o: ValidationOptions, renders: HelperCall -> bool)
    requires !Suppressed(e) && e.content.None?
    requires o.customMessage == "" && (o.forName.None? || !renders(QueryFor(o.forName.value)))
    ensures Process(e, o, renders).content.None?
  {
  }

  /** `show-as-list` changes nothing. */
  lemma ShowAsListIsIgnored(e: Element, o: ValidationOptions, renders: HelperCall -> bool)
    ensures Process(e, o.(showAsList := true), renders) == Process(e, o.(showAsList := false), renders)
  {
  }

  /** With every option at its default there is neither a property nor a
      custom message: the element becomes a `<div>` with the default red
      text classes around its own content. */
  lemma DefaultValidationMessage(e: Element, renders: HelperCall -> bool)
    ensures var r := Process(e, Defaults, renders);
            !Suppressed(e) ==>
              && r.tag == Some("div")
              && GetAttr(r.attrs, "class") == Some("mt-1 text-sm text-red-600")
              && r.content == e.content
  {
  }
}
