/**
 The `<datalist asp-list=… asp-items=…>` helper: appends one self-closing
 `<option>` per entry of a string list or of a select list.
 */
module Datalist {
  import opened Html

  /** A `SelectListItem`: its value and its display text (null read as ""). */
  datatype SelectItem = SelectItem(value: string, text: string)

  /** A self-closing `<option>` carrying `value` and, when given, `label`. */
  function OptionTag(attributes: Attrs): Fragment {
    Built("option", attributes, [], SelfClosing)
  }

  /** The option for one string of `asp-list`. */
  function ListOption(item: string): (r: Fragment)
    ensures r.Built? && r.tag == "option" && r.mode == SelfClosing && r.inner == []
    ensures r.attributes.Keys == {"value"} && r.attributes["value"] == item
  {
    OptionTag(map["value" := item])
  }

  /** The option for one `SelectListItem`: a `label` only when the text is
      non-empty and differs from the value. */
  function ItemOption(item: SelectItem): (r: Fragment)
    ensures r.Built? && r.tag == "option" && r.mode == SelfClosing && r.inner == []
    ensures "value" in r.attributes && r.attributes["value"] == item.value
    ensures "label" in r.attributes <==> item.text != "" && item.text != item.value
    ensures "label" in r.attributes ==> r.attributes["label"] == item.text
    ensures r.attributes.Keys <= {"value", "label"}
  {
    var a := map["value" := item.value];
    OptionTag(if item.text != "" && item.text != item.value then a["label" := item.text] else a)
  }

  /** `HtmlContentBuilder.AppendLine` for each option: every option is
      followed by a new line. */
  function WithLineBreaks(options: seq<Fragment>): (r: seq<Fragment>)
    ensures |r| == 2 * |options|
  {
    if options == [] then []
    else [options[0], LineBreak] + WithLineBreaks(options[1..])
  }

  /** Option `i` sits at position `2 i`, followed by its new line. */
  lemma {:induction false} LineBreakAfterEachOption(options: seq<Fragment>)
    ensures forall i | 0 <= i < |options| ::
              WithLineBreaks(options)[2 * i] == options[i] && WithLineBreaks(options)[2 * i + 1] == LineBreak
  {
    if options != [] {
      LineBreakAfterEachOption(options[1..]);
      var r := WithLineBreaks(options);
      forall i | 0 <= i < |options|
        ensures r[2 * i] == options[i] && r[2 * i + 1] == LineBreak
      {
        if i > 0 {
          assert r[2 * i] == WithLineBreaks(options[1..])[2 * (i - 1)];
          assert r[2 * i + 1] == WithLineBreaks(options[1..])[2 * (i - 1) + 1];
        }
      }
    }
  }

  /** One option per string, in order. */
  function ListOptions(list: seq<string>): (r: seq<Fragment>)
    ensures |r| == |list|
    ensures forall i | 0 <= i < |list| :: r[i] == ListOption(list[i])
  {
    if list == [] then [] else [ListOption(list[0])] + ListOptions(list[1..])
  }

  /** One option per select item, in order. */
  function ItemOptions(items: seq<SelectItem>): (r: seq<Fragment>)
    ensures |r| == |items|
    ensures forall i | 0 <= i < |items| :: r[i] == ItemOption(items[i])
  {
    if items == [] then [] else [ItemOption(items[0])] + ItemOptions(items[1..])
  }

  /** The options the helper generates, `asp-items` taking priority over
      `asp-list`; an empty or missing collection counts as absent. Option
      `i` is at position `2 i`, followed by a new line. */
  function Generated(list: seq<string>, items: seq<SelectItem>): (r: seq<Fragment>)
    ensures items != [] ==>
              && |r| == 2 * |items|
              && forall i | 0 <= i < |items| :: r[2 * i] == ItemOption(items[i]) && r[2 * i + 1] == LineBreak
    ensures items == [] ==>
              && |r| == 2 * |list|
              && forall i | 0 <= i < |list| :: r[2 * i] == ListOption(list[i]) && r[2 * i + 1] == LineBreak
  {
    if items != [] then
      LineBreakAfterEachOption(ItemOptions(items));
      WithLineBreaks(ItemOptions(items))
    else if list != [] then
      LineBreakAfterEachOption(ListOptions(list));
      WithLineBreaks(ListOptions(list))
    else []
  }

  /** `DatalistTagHelper.Process`; an absent collection is the empty one. */
  function Process(e: Element, list: seq<string>, items: seq<SelectItem>): (r: Element)
    ensures Suppressed(e) || (list == [] && items == []) ==> r == e
    ensures r.tag == e.tag && r.attrs == e.attrs && r.allAttrs == e.allAttrs && r.child == e.child
    ensures r.content == e.content && r.items == e.items && r.suppressedByIf == e.suppressedByIf
    ensures |e.postContent| <= |r.postContent| && r.postContent[..|e.postContent|] == e.postContent
    // after the existing content: the options in order, each on its own line
    ensures !Suppressed(e) ==> r.postContent == e.postContent + Generated(list, items)
    // what a browser offers from them
    ensures !Suppressed(e) ==>
              Choices(r.postContent[|e.postContent|..])
                == if items != [] then ItemChoices(items) else ListChoices(list)
  {
    if Suppressed(e) then e
    else
      var added := Generated(list, items);
      ChoicesOfGenerated(list, items);
      var r := e.(postContent := e.postContent + added);
      assert r.postContent[|e.postContent|..] == added;
      r
  }

  /** What a browser offers for a run of content: for each `<option>`
      with a value, the value and its displayed label (the `label`
      attribute, or the value when there is none). Other fragments offer
      nothing. */
  function Choices(fs: seq<Fragment>): seq<(string, string)> {
    if fs == [] then []
    else
      var f := fs[0];
      var rest := Choices(fs[1..]);
      if f.Built? && f.tag == "option" && "value" in f.attributes then
        var v := f.attributes["value"];
        [(v, if "label" in f.attributes then f.attributes["label"] else v)] + rest
      else rest
  }

  /** What each string of `asp-list` should offer: itself, as value and label. */
  function ListChoices(list: seq<string>): (r: seq<(string, string)>)
    ensures |r| == |list|
    ensures forall i | 0 <= i < |list| :: r[i].0 == list[i] && r[i].1 == list[i]
  {
    seq(|list|, i requires 0 <= i < |list| => (list[i], list[i]))
  }

  /** What each select item should offer: its value, shown by its text, or
      by the value when the text is empty. */
  function ItemChoices(items: seq<SelectItem>): (r: seq<(string, string)>)
    ensures |r| == |items|
    ensures forall i | 0 <= i < |items| ::
              r[i].0 == items[i].value && r[i].1 == (if items[i].text != "" then items[i].text else items[i].value)
  {
    seq(|items|, i requires 0 <= i < |items| =>
      (items[i].value, if items[i].text != "" then items[i].text else items[i].value))
  }

  lemma {:induction false} ChoicesOfConcat(a: seq<Fragment>, b: seq<Fragment>)
    ensures Choices(a + b) == Choices(a) + Choices(b)
  {
    if a != [] {
      assert (a + b)[1..] == a[1..] + b;
      ChoicesOfConcat(a[1..], b);
    } else {
      assert a + b == b;
    }
  }

  /** New lines between the options offer nothing. */
  lemma {:induction false} ChoicesIgnoreLineBreaks(options: seq<Fragment>)
    ensures Choices(WithLineBreaks(options)) == Choices(options)
  {
    if options != [] {
      ChoicesIgnoreLineBreaks(options[1..]);
      ChoicesOfConcat([options[0], LineBreak], WithLineBreaks(options[1..]));
      assert [options[0], LineBreak][1..] == [LineBreak];
      assert Choices([options[0], LineBreak]) == Choices([options[0]]);
      ChoicesOfConcat([options[0]], options[1..]);
      assert [options[0]] + options[1..] == options;
    }
  }

  /** The string options offer exactly the strings, in order. */
  lemma {:induction false} ListOptionsOffer(list: seq<string>)
    ensures Choices(ListOptions(list)) == ListChoices(list)
  {
    if list != [] {
      ListOptionsOffer(list[1..]);
      ChoicesOfConcat([ListOption(list[0])], ListOptions(list[1..]));
      var r := ListChoices(list);
      assert r == [r[0]] + r[1..];
      assert r[1..] == ListChoices(list[1..]);
    }
  }

  /** One select-list option offers the item's value, labelled by its text
      when it has one: leaving out a `label` equal to the value changes
      nothing a user sees. */
  lemma ItemOptionOffers(item: SelectItem)
    ensures Choices([ItemOption(item)]) == [(item.value, if item.text != "" then item.text else item.value)]
  {
    assert [ItemOption(item)][1..] == [];
  }

  /** The select-list options offer what each item promises, in order. */
  lemma {:induction false} ItemOptionsOffer(items: seq<SelectItem>)
    ensures Choices(ItemOptions(items)) == ItemChoices(items)
  {
    if items != [] {
      var first := [ItemOption(items[0])];
      var rest := ItemOptions(items[1..]);
      assert ItemOptions(items) == first + rest;
      ChoicesOfConcat(first, rest);
      ItemOptionOffers(items[0]);
      ItemOptionsOffer(items[1..]);
      ItemChoicesCons(items);
    }
  }

  /** The first item's choice, then the rest's. */
  lemma ItemChoicesCons(items: seq<SelectItem>)
    requires items != []
    ensures ItemChoices(items) == ItemChoices(items[..1]) + ItemChoices(items[1..])
  {
    var r := ItemChoices(items);
    assert r[1..] == ItemChoices(items[1..]);
    assert r[..1] == ItemChoices(items[..1]);
    assert r == r[..1] + r[1..];
  }

  lemma ChoicesOfGenerated(list: seq<string>, items: seq<SelectItem>)
    ensures Choices(Generated(list, items)) == if items != [] then ItemChoices(items) else ListChoices(list)
  {
    if items != [] {
      ChoicesIgnoreLineBreaks(ItemOptions(items));
      ItemOptionsOffer(items);
    } else if list != [] {
      ChoicesIgnoreLineBreaks(ListOptions(list));
      ListOptionsOffer(list);
    }
  }
}
