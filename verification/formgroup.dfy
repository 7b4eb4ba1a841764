/**
 The `<form-group asp-for=…>` helper: a container `<div>` holding a label,
 the editor for the model property, optional help text and the property's
 validation message.
 */
module FormGroup {
  import opened Wrappers
  import opened Html
  import Strings

  /** The parts of `asp-for` the helper reads: the property's name and its
      metadata's display name and required flag. */
  datatype ModelExpression = ModelExpression(name: string, displayName: Option<string>, isRequired: bool)

  /** The bound attributes. `label` and `required` keep null (None) apart
      from a value, since `??` tests for null only; the other strings model
      null as "", which the helper treats alike. */
  datatype FormGroupOptions = FormGroupOptions(
    explicitLabel: Option<string>,
    helpText: string,
    containerClass: string,
    labelClass: string,
    inputClass: string,
    showValidation: bool,
    required: Option<bool>,
    inputType: string,
    placeholder: string)

  const Defaults := FormGroupOptions(None, "", "mb-3", "form-label", "form-control", true, None, "", "")

  const RequiredMarker := " <span class=\"text-danger\">*</span>"

  /** The label text: the explicit label, else the display name, else the
      property name. */
  function LabelText(o: FormGroupOptions, m: ModelExpression): string {
    o.explicitLabel.GetOr(m.displayName.GetOr(m.name))
  }

  /** Whether the field is required: the explicit flag, else the metadata's. */
  function IsRequired(o: FormGroupOptions, m: ModelExpression): bool {
    o.required.GetOr(m.isRequired)
  }

  /** The label text follows its precedence: an explicit label always wins,
      even an empty one; the display name comes next; the property name is
      the fallback. */
  lemma LabelPrecedence(o: FormGroupOptions, m: ModelExpression)
    ensures o.explicitLabel.Some? ==> LabelText(o, m) == o.explicitLabel.value
    ensures o.explicitLabel.None? && m.displayName.Some? ==> LabelText(o, m) == m.displayName.value
    ensures o.explicitLabel.None? && m.displayName.None? ==> LabelText(o, m) == m.name
    ensures o.required.Some? ==> IsRequired(o, m) == o.required.value
    ensures o.required.None? ==> IsRequired(o, m) == m.isRequired
  {
  }

  /** The `<label>`: pointing at the property, its text encoded, and the
      red asterisk when the field is required. */
  function LabelTag(o: FormGroupOptions, m: ModelExpression): (r: Fragment)
    ensures r.Built? && r.tag == "label" && r.mode == Normal
    ensures r.attributes == map["for" := m.name, "class" := o.labelClass]
    ensures |r.inner| >= 1 && r.inner[0] == Encoded(LabelText(o, m))
    ensures Raw(RequiredMarker) in r.inner <==> IsRequired(o, m)
  {
    Built("label", map["for" := m.name, "class" := o.labelClass],
          [Encoded(LabelText(o, m))] + (if IsRequired(o, m) then [Raw(RequiredMarker)] else []),
          Normal)
  }

  /** The HTML attributes handed to the editor. */
  function InputAttributes(o: FormGroupOptions, m: ModelExpression): (r: Attrs)
    ensures r.Keys == {"class", "id", "name"}
                      + (if o.placeholder != "" then {"placeholder"} else {})
                      + (if o.inputType != "" then {"type"} else {})
                      + (if IsRequired(o, m) then {"required"} else {})
    ensures r["class"] == o.inputClass && r["id"] == m.name && r["name"] == m.name
    ensures "placeholder" in r ==> r["placeholder"] == o.placeholder
    ensures "type" in r ==> r["type"] == o.inputType
    ensures "required" in r ==> r["required"] == "required"
  {
    var base := map["class" := o.inputClass, "id" := m.name, "name" := m.name];
    var withPlaceholder := if o.placeholder != "" then base["placeholder" := o.placeholder] else base;
    var withType := if o.inputType != "" then withPlaceholder["type" := o.inputType] else withPlaceholder;
    if IsRequired(o, m) then withType["required" := "required"] else withType
  }

  function EditorFor(o: FormGroupOptions, m: ModelExpression): Fragment {
    HelperOutput(EditorCall(m.name, InputAttributes(o, m)))
  }

  function HelpTag(text: string): Fragment {
    Built("div", map["class" := "form-text"], [Encoded(text)], Normal)
  }

  function ValidationFor(m: ModelExpression): Fragment {
    HelperOutput(ValidationMessageCall(m.name, "", map["class" := "invalid-feedback"]))
  }

  /** What the helper appends to the content: the label, the editor, the
      help text when there is some, the validation message when enabled. */
  function Fields(o: FormGroupOptions, m: ModelExpression): (r: seq<Fragment>)
    ensures |r| == 2 + (if o.helpText != "" then 1 else 0) + (if o.showValidation then 1 else 0)
    ensures r[0] == LabelTag(o, m) && r[1] == EditorFor(o, m)
    ensures HelpTag(o.helpText) in r <==> o.helpText != ""
    ensures ValidationFor(m) in r <==> o.showValidation
    ensures o.showValidation ==> r[|r| - 1] == ValidationFor(m)
  {
    [LabelTag(o, m), EditorFor(o, m)]
      + (if o.helpText != "" then [HelpTag(o.helpText)] else [])
      + (if o.showValidation then [ValidationFor(m)] else [])
  }

  /** The label, the editor's id and name, and the validation message all
      refer to the same property, so the label is tied to its input. */
  lemma FieldsAgreeOnProperty(o: FormGroupOptions, m: ModelExpression)
    ensures var r := Fields(o, m);
            && r[0].attributes["for"] == r[1].call.htmlAttributes["id"] == r[1].call.htmlAttributes["name"]
            && r[1].call.expression == m.name
            && (o.showValidation ==> r[|r| - 1].call.expression == m.name)
  {
  }

  /** The asterisk on the label and the `required` attribute on the input
      appear together, exactly when the field is required. */
  lemma RequiredMarksAgree(o: FormGroupOptions, m: ModelExpression)
    ensures var r := Fields(o, m);
            && (Raw(RequiredMarker) in r[0].inner <==> "required" in r[1].call.htmlAttributes)
            && ("required" in r[1].call.htmlAttributes <==> IsRequired(o, m))
  {
  }

  /** `FormGroupTagHelper.ProcessAsync`. */
  function Process(e: Element, o: FormGroupOptions, m: ModelExpression): (r: Element)
    ensures Suppressed(e) ==> r == e
    ensures !Suppressed(e) ==>
              && r.tag == Some("div")
              && GetAttr(r.attrs, "class") == Some(o.containerClass)
              && (forall n | Strings.Lower(n) != "class" :: GetAttr(r.attrs, n) == GetAttr(e.attrs, n))
              && r.content == AppendContent(e.content, Fields(o, m))
              && r.postContent == e.postContent && r.allAttrs == e.allAttrs && r.child == e.child
              && r.items == e.items && r.suppressedByIf == e.suppressedByIf
  {
    if Suppressed(e) then e
    else
      e.(tag := Some("div"),
         attrs := SetAttr(e.attrs, "class", o.containerClass),
         content := AppendContent(e.content, Fields(o, m)))
  }

  /** The group replaces the element's child content: its content is
      written, and whatever was written before is kept ahead of the fields. */
  lemma GroupKeepsEarlierContent(e: Element, o: FormGroupOptions, m: ModelExpression)
    requires !Suppressed(e)
    ensures var c := Process(e, o, m).content;
            && c.Some?
            && c.value[..|Written(e.content)|] == Written(e.content)
            && c.value[|Written(e.content)|] == LabelTag(o, m)
  {
  }

  /** With every option at its default, the group is a `mb-3` container
      holding the label, an editor styled `form-control` that is required
      exactly when the metadata says so, and the validation message; there
      is no help text, placeholder or input type. */
  lemma DefaultFormGroup(e: Element, m: ModelExpression)
    ensures var r := Process(e, Defaults, m);
            var f := Fields(Defaults, m);
            !Suppressed(e) ==>
              && GetAttr(r.attrs, "class") == Some("mb-3")
              && f == [LabelTag(Defaults, m), EditorFor(Defaults, m), ValidationFor(m)]
              && InputAttributes(Defaults, m).Keys == {"class", "id", "name"} + (if m.isRequired then {"required"} else {})
              && InputAttributes(Defaults, m)["class"] == "form-control"
              && LabelText(Defaults, m) == m.displayName.GetOr(m.name)
  {
  }
}
