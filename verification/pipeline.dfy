/**
 How the helpers of one element cooperate: once the authorization helper
 suppresses an element, every helper that runs after it leaves the element
 as it is.
 */
module Pipeline {
  import opened Wrappers
  import opened Html
  import Authz
  import Alert
  import AutoHide
  import Datalist
  import FormGroup
  import ValidationMessage

  /** Once the authorization helper has suppressed an element, every
      helper is a no-op on it: the element stays suppressed, with no tag
      and no content, and no script is added. The alert, auto-hide, form
      group and validation helpers (order 0) run after the authorization
      helper (order -10) and so always see the sentinel; the datalist
      helper (order -1000) runs before it, and `DatalistCommutesWithGate`
      shows that order makes no difference. */
  lemma SuppressionIsFinal(e: Element,
                           alert: Alert.AlertOptions,
                           hiding: AutoHide.AutoHideOptions, suffix: string,
                           list: seq<string>, items: seq<Datalist.SelectItem>,
                           group: FormGroup.FormGroupOptions, m: FormGroup.ModelExpression,
                           validation: ValidationMessage.ValidationOptions, renders: HelperCall -> bool)
    ensures var hidden := Authz.MarkSuppressed(e);
            && hidden.tag == None && hidden.content == Some([]) && hidden.postContent == []
            && Alert.Process(hidden, alert) == hidden
            && AutoHide.Process(hidden, hiding, suffix) == hidden
            && Datalist.Process(hidden, list, items) == hidden
            && FormGroup.Process(hidden, group, m) == hidden
            && ValidationMessage.Process(hidden, validation, renders) == hidden
  {
  }

  /** The datalist helper, which runs before the authorization helper, does
      not change what the gate sees or does: whether the element is already
      suppressed, which policy list decides, whether the element shows, and
      the suppressed element are the same with or without it. Suppressing
      after the datalist helper gives what running it after the gate
      gives, so the two orders agree. */
  lemma DatalistCommutesWithGate(e: Element, list: seq<string>, items: seq<Datalist.SelectItem>,
                                 o: Authz.AuthzOptions, authenticated: bool, cache: Authz.Cache,
                                 oracle: string -> bool)
    ensures var d := Datalist.Process(e, list, items);
            && Suppressed(d) == Suppressed(e)
            && Authz.DecidingList(d, o, authenticated) == Authz.DecidingList(e, o, authenticated)
            && Authz.Shows(d, o, authenticated, cache, oracle) == Authz.Shows(e, o, authenticated, cache, oracle)
            && Authz.MarkSuppressed(d) == Authz.MarkSuppressed(e)
            && Datalist.Process(Authz.MarkSuppressed(e), list, items) == Authz.MarkSuppressed(d)
  {
    var d := Datalist.Process(e, list, items);
    assert d == e.(postContent := d.postContent);
    GateIgnoresPostContent(e, d.postContent, o, authenticated, cache, oracle);
  }

  /** The gate reads neither the post-content nor writes any of it back. */
  lemma GateIgnoresPostContent(e: Element, p: seq<Fragment>, o: Authz.AuthzOptions, authenticated: bool,
                               cache: Authz.Cache, oracle: string -> bool)
    ensures var d := e.(postContent := p);
            && Suppressed(d) == Suppressed(e)
            && Authz.DecidingList(d, o, authenticated) == Authz.DecidingList(e, o, authenticated)
            && Authz.Shows(d, o, authenticated, cache, oracle) == Authz.Shows(e, o, authenticated, cache, oracle)
            && Authz.MarkSuppressed(d) == Authz.MarkSuppressed(e)
  {
    var d := e.(postContent := p);
    assert d.allAttrs == e.allAttrs && d.items == e.items;
  }
}
