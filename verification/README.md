# Noundry tag helpers, modelled in Dafny

This project models six ASP.NET Core Razor tag helpers from Noundry.TagHelpers. Each one rewrites one HTML element while a Razor page renders:

- **Authorization gate** (`asp-authz`, `asp-authz-policy`, `asp-authz-policy-any`). It decides whether an element renders. It parses a comma-separated policy list, evaluates it with AND or OR short-circuiting, and caches each policy's outcome in the request's view data. When it hides an element, it leaves a sentinel in the element's items.
- **`<datalist>` helper.** It appends one self-closing `<option>` per string of `asp-list` or per `SelectListItem` of `asp-items`, with the items taking priority.
- **`<alert>` helper.** It builds a Bootstrap alert `<div>` with:
  - class tokens;
  - an optional icon, title (HTML-encoded) and close button;
  - optionally, a script that removes the alert after a delay.
- **`auto-hide` helper.** It makes sure the element has an id. Then it appends a script that hides the element after a delay. The script can pause while the pointer hovers and can log to the console in debug mode. It also exposes a global control handle.
- **`<form-group>` helper.** It writes a label, the editor for a model property, optional help text and the property's validation message.
- **`<validation-message>` helper.** It writes either a custom message or the framework's validation message for a property.

Every helper first checks whether the conditional helper or the authorization gate has already suppressed the element. If so, it does nothing.

## Structure

| module | file | contents |
|---|---|---|
| `Wrappers` | `wrappers.dfy` | `Option` |
| `Strings` | `strings.dfy` | the .NET string operations used: `char.IsWhiteSpace`, `Trim`, `Split`, `Join`, ASCII lower-casing, `Replace`, `int.ToString()`, and their inverses where needed |
| `Html` | `html.dfy` | one element's state (tag name, attributes, child content, content and post-content buffers, context items) and the operations the helpers use on it |
| `Authz`, `Datalist`, `Alert`, `AutoHide`, `FormGroup`, `ValidationMessage` | one file each | one module per tag helper |
| `Pipeline` | `pipeline.dfy` | how the helpers of one element cooperate once the gate has suppressed it |

Each helper's `ProcessAsync`/`Process` is a function from the element's state (plus the bound attributes and the outside services it needs) to the element's new state. The authorization gate is a method, because its loop is the interesting part. It returns three things:

- the new element;
- the view-data cache afterwards;
- the policy names it sent to the authorization service, in order.

The following are parameters:

- the authorization service (`oracle`);
- whether the user is authenticated;
- whether the framework's validation message is non-null (`renders`);
- the GUID digits of a generated id (`suffix`).

Output that the framework's `IHtmlHelper` produces (`Editor`, `ValidationMessage`) appears as a symbolic `HelperOutput` fragment that records the call.

## Model

| member | source | states |
|---|---|---|
| `Html.SetAttr` | src/Noundry.TagHelpers/AlertTagHelper.cs:70 | Setting an attribute makes a case-insensitive lookup of that name return the new value. It leaves every other name's value as it was and keeps all stored names folded. |
| `Html.SuppressOutput` | src/Noundry.TagHelpers/AuthzTagHelper.cs:154 | Suppressing output removes the tag, writes empty content and clears the post-content. Attributes, child content and items are unchanged. |
| `Html.AppendContent` | src/Noundry.TagHelpers/FormGroupTagHelper.cs:122 | Appending to `Content` marks it written. What was there before stays ahead of the new fragments. |
| `Strings.Trim` | src/Noundry.TagHelpers/AuthzTagHelper.cs:87 | The result has no white space at either end. It is empty exactly when the input is empty or all white space. |
| `Strings.TrimIsSlice` | src/Noundry.TagHelpers/AuthzTagHelper.cs:87 | The trimmed string is one contiguous slice of the input, and only white space is cut off on either side. |
| `Strings.TrimKeepsChars` | src/Noundry.TagHelpers/AuthzTagHelper.cs:87 | Trimming adds no character that was not in the input. |
| `Strings.Split` | src/Noundry.TagHelpers/AuthzTagHelper.cs:87 | Splitting yields at least one piece, and no piece contains the separator. |
| `Strings.JoinSplit` | src/Noundry.TagHelpers/AuthzTagHelper.cs:87 | Joining the pieces of a split with the same separator gives back the original string. |
| `Strings.SplitJoin` | src/Noundry.TagHelpers/AlertTagHelper.cs:85 | Splitting a join of one or more separator-free pieces gives back exactly those pieces. |
| `Strings.ReplaceChar` | src/Noundry.TagHelpers/AutoHideTagHelper.cs:199 | Replacing one character by another keeps the length and leaves none of the replaced character. Each position holding the replaced character now holds the replacement, and every other position is unchanged. |
| `Strings.ReplaceCharBack` | src/Noundry.TagHelpers/AutoHideTagHelper.cs:199 | When the replacement character does not occur in the input, replacing it back restores the input. |
| `Strings.BetweenReadsBack` | src/Noundry.TagHelpers/AutoHideTagHelper.cs:111 | A text written between a prefix and a suffix reads back as exactly that text. |
| `Strings.LowerIdempotent` | src/Noundry.TagHelpers/AutoHideTagHelper.cs:138 | Lower-casing twice is the same as lower-casing once. |
| `Strings.IntDecimalRoundTrip` | src/Noundry.TagHelpers/AlertTagHelper.cs:122 | An integer printed in decimal, the way string interpolation prints it, parses back to the same integer, negative values included. |
| `Authz.CacheKeyInjective` | src/Noundry.TagHelpers/AuthzTagHelper.cs:92-123 | Two cache keys are equal exactly when the list kind (AND/OR) and the policy name are both equal. The AND and OR caches never share an entry. |
| `Authz.ParsePolicies` | src/Noundry.TagHelpers/AuthzTagHelper.cs:87 | Splitting on ',' with trimmed, non-empty entries yields names that are non-empty, have no white space at either end and contain no comma. |
| `Authz.ParseJoinedPolicies` | src/Noundry.TagHelpers/AuthzTagHelper.cs:87 | Parsing a comma-joined list of proper names gives back the names in order, so parsing loses and reorders nothing. |
| `Authz.BlankListParsesEmpty` | src/Noundry.TagHelpers/AuthzTagHelper.cs:87 | A list made only of commas and white space yields no policy at all. |
| `Authz.Consult` | src/Noundry.TagHelpers/AuthzTagHelper.cs:92-104 | One lookup returns the policy's outcome. On a hit, that is the cached value and nothing changes. On a miss, the service is asked once, about a name not asked before, and the answer is cached under the policy's key. |
| `Authz.EvaluatePolicies` | src/Noundry.TagHelpers/AuthzTagHelper.cs:84-145 | The list is granted exactly when every outcome holds (AND) or some outcome holds (OR). Evaluation stops right after the first deciding outcome. The cache keeps its entries and gains exactly the examined policies' keys. Each service call is for a distinct name that was not cached before. |
| `Authz.Scan` | src/Noundry.TagHelpers/AuthzTagHelper.cs:90-143 | The loop ends either after the last policy with none deciding, or right after the first deciding outcome. The cache then holds every examined policy's outcome and nothing else new. The recorded calls are exactly the newly cached names. |
| `Authz.CallsWithinList` | src/Noundry.TagHelpers/AuthzTagHelper.cs:90-104 | Every name sent to the authorization service is among the policies examined, and the service's answer is cached under its key. The cache gains exactly the keys of the names sent. |
| `Authz.CallsBeforeDecision` | src/Noundry.TagHelpers/AuthzTagHelper.cs:90-143 | Every name sent to the service stands at a position in the list that no earlier policy decides, so nothing after the deciding policy is ever asked. |
| `Authz.ReachedWereExamined` | src/Noundry.TagHelpers/AuthzTagHelper.cs:90-111 | The loop reaches every policy that no earlier policy decides: each such policy is in the cache with its outcome, and on a miss it was sent to the service. |
| `Authz.EvaluateList` | src/Noundry.TagHelpers/AuthzTagHelper.cs:84-145 | A parsed list is granted by the AND/OR rule. The service is asked only about listed, uncached names, each once and none after the deciding policy. The cache keeps its entries and gains exactly those names' keys, each holding the service's answer for that name. Every policy reached before the decision holds its outcome in the cache afterwards, and one that was not cached was sent to the service. |
| `Authz.MarkSuppressed` | src/Noundry.TagHelpers/AuthzTagHelper.cs:152-172 | After suppression the element carries the sentinel that `SuppressedByAspAuthz` recognises. |
| `Authz.Process` | src/Noundry.TagHelpers/AuthzTagHelper.cs:65-157 | An element already suppressed is untouched. Otherwise it is left exactly as it was when the rules show it, and suppressed with the sentinel when they do not. Only the deciding list touches the cache and the service; the cache gains exactly the keys of the names sent to the service, each holding the service's answer. The names sent are distinct, previously uncached and never after the deciding policy. Every policy of the deciding list reached before the decision holds its outcome in the cache afterwards, and one that was not cached was sent. |
| `Authz.AllListTakesPrecedence` | src/Noundry.TagHelpers/AuthzTagHelper.cs:79-115 | With a non-empty AND list, neither the OR list, `asp-authz` nor the user's authentication changes the outcome. |
| `Authz.NoPolicyRules` | src/Noundry.TagHelpers/AuthzTagHelper.cs:75-150 | Without policy lists, `asp-authz="false"` shows the element exactly to anonymous users, and `asp-authz="true"` exactly to authenticated ones. Without the attribute the element never shows. |
| `Authz.FreshCacheMeaning` | src/Noundry.TagHelpers/AuthzTagHelper.cs:84-145 | With an empty cache, an AND list shows the element iff every listed policy is authorized, and an OR list iff some listed policy is. |
| `Authz.BlankListsAreVacuous` | src/Noundry.TagHelpers/AuthzTagHelper.cs:84-145 | Take any non-empty list made only of commas and white space, such as `,` or ` , `. As the AND list it shows the element to everyone. As the OR list (with no AND list) it hides the element from everyone. |
| `Datalist.ListOption` | src/Noundry.TagHelpers/DatalistTagHelper.cs:93-94 | A string becomes a self-closing `<option>` whose only attribute is `value`, set to the string. |
| `Datalist.ItemOption` | src/Noundry.TagHelpers/DatalistTagHelper.cs:127-133 | A select item becomes a self-closing `<option>` with the item's value. It has a `label` exactly when the text is non-empty and differs from the value, and the label is then the text. |
| `Datalist.LineBreakAfterEachOption` | src/Noundry.TagHelpers/DatalistTagHelper.cs:91-96 | Option `i` sits at position `2i` and is followed by a new line. |
| `Datalist.ListOptionsOffer` | src/Noundry.TagHelpers/DatalistTagHelper.cs:89-97 | The string options offer each string, in order, as both value and displayed label. |
| `Datalist.ItemOptionOffers` | src/Noundry.TagHelpers/DatalistTagHelper.cs:127-133 | One select-item option offers the item's value, labelled by its text when that is non-empty and otherwise by the value. Leaving out a label equal to the value changes nothing a user sees. |
| `Datalist.ItemOptionsOffer` | src/Noundry.TagHelpers/DatalistTagHelper.cs:122-139 | The select-item options offer what each item promises, in order. |
| `Datalist.ListOptions` | src/Noundry.TagHelpers/DatalistTagHelper.cs:89-97 | There is one option per string, and option `i` is the option for string `i`. |
| `Datalist.ItemOptions` | src/Noundry.TagHelpers/DatalistTagHelper.cs:122-139 | There is one option per select item, and option `i` is the option for item `i`. |
| `Datalist.Generated` | src/Noundry.TagHelpers/DatalistTagHelper.cs:52-60 | With select items, the generated content holds the option for item `i` at position `2i`, followed by a new line. Without items, it does the same for the strings. |
| `Datalist.ChoicesOfGenerated` | src/Noundry.TagHelpers/DatalistTagHelper.cs:52-60 | The generated content offers the items' choices when there are items, otherwise the strings' choices. |
| `Datalist.Process` | src/Noundry.TagHelpers/DatalistTagHelper.cs:40-66 | A suppressed element, or one with neither collection, is untouched. Otherwise only the post-content changes. It keeps what was there and gains exactly the generated options, each followed by a new line. Those offer exactly the items' choices, or the strings' when there are no items. |
| `Alert.ClassTokens` | src/Noundry.TagHelpers/AlertTagHelper.cs:73-83 | The classes start with `alert` and `alert-<type>`. The three dismissal classes are present exactly when the alert is dismissible, the extra class exactly when it is given, and nothing else is. |
| `Alert.ClassAttributeReadsBack` | src/Noundry.TagHelpers/AlertTagHelper.cs:85 | When the type and the extra class are single tokens, splitting the class attribute on spaces gives back exactly the class tokens. |
| `Alert.Parts` | src/Noundry.TagHelpers/AlertTagHelper.cs:89-115 | The body's parts come in fixed order: icon, title, line break, child content, close button. |
| `Alert.PartsPresent` | src/Noundry.TagHelpers/AlertTagHelper.cs:89-115 | A part is in the body exactly when its option or content is given: the line break needs both a title and non-blank child content. Nothing else is in the body. |
| `Alert.BreakSeparatesTitleFromChild` | src/Noundry.TagHelpers/AlertTagHelper.cs:96-109 | Wherever a line break appears, the title comes right before it and the child content right after it. |
| `Alert.Render` | src/Noundry.TagHelpers/AlertTagHelper.cs:87-108 | The only text that is HTML-encoded is a title. Every title part is written encoded, and the child content is written verbatim as raw HTML. |
| `Alert.RenderConcat` | src/Noundry.TagHelpers/AlertTagHelper.cs:87-115 | Rendering two runs of parts, one after the other, gives the first run's HTML followed by the second's. |
| `Alert.RenderWhen` | src/Noundry.TagHelpers/AlertTagHelper.cs:87-115 | An optional part renders as its own HTML when present and as nothing otherwise. |
| `Alert.ContentInOrder` | src/Noundry.TagHelpers/AlertTagHelper.cs:87-117 | The content is, in this order: the icon, the encoded title, the line break, the child content and the close button. Each appears only when its condition holds. |
| `Alert.DefaultAlert` | src/Noundry.TagHelpers/AlertTagHelper.cs:18-54 | With every option at its default, the element becomes `<div role="alert" class="alert alert-info">`. It holds only its non-blank child content, and its post-content is unchanged. |
| `Alert.DismissDelayReadsBack` | src/Noundry.TagHelpers/AlertTagHelper.cs:120-124 | The auto-dismiss script, read back for its role, yields exactly the configured delay. |
| `Alert.AlertAttributes` | src/Noundry.TagHelpers/AlertTagHelper.cs:70-85 | `role` and `class` are set, and every other attribute keeps its value. |
| `Alert.Process` | src/Noundry.TagHelpers/AlertTagHelper.cs:57-125 | A suppressed element is untouched. Otherwise it becomes a `<div>`: its attributes are the alert attributes, its content replaces the child content, and the post-content is replaced by the dismiss script when auto-dismiss is given. |
| `Alert.TitleIsEncoded` | src/Noundry.TagHelpers/AlertTagHelper.cs:96-103 | The title appears encoded exactly when it is given, and it is the only encoded text of the alert. |
| `AutoHide.Wrap32` | src/Noundry.TagHelpers/AutoHideTagHelper.cs:172 | Unchecked C# `int` arithmetic: the result is a 32-bit value congruent to the exact one modulo 2^32, and equal to it when it fits. |
| `AutoHide.ElementId` | src/Noundry.TagHelpers/AutoHideTagHelper.cs:77-83 | The target id is never empty. It is the element's own id when that is non-empty, otherwise `auto-hide-` followed by the GUID digits. |
| `AutoHide.IdIsKeptOrGenerated` | src/Noundry.TagHelpers/AutoHideTagHelper.cs:78-83 | An existing non-empty id is kept. A missing or empty one is replaced by one starting with `auto-hide-`. |
| `AutoHide.EffectNameRoundTrip` | src/Noundry.TagHelpers/AutoHideTagHelper.cs:138-154 | Each effect's name selects that effect. |
| `AutoHide.EffectIgnoresCase` | src/Noundry.TagHelpers/AutoHideTagHelper.cs:138 | The effect name is matched after lower-casing, so case does not matter. |
| `AutoHide.EffectLines` | src/Noundry.TagHelpers/AutoHideTagHelper.cs:138-154 | Every effect ends with the fade-out statement. Slide-up starts with the `translateY(-100%)` transform and scale with the `scale(0)` transform. Fade, and every unknown name, is the fade-out statement alone. |
| `AutoHide.EffectLinesReadBack` | src/Noundry.TagHelpers/AutoHideTagHelper.cs:138-154 | The statements written for a name read back as exactly the effect that name selects. The read-back accepts only the three exact runs: the fade-out alone, or the slide or scale transform followed by the fade-out. |
| `AutoHide.EffectOfOnlyEffectLines` | src/Noundry.TagHelpers/AutoHideTagHelper.cs:138-154 | Any run of statements that reads back as an effect is exactly the run written for that effect's name. |
| `AutoHide.TransitionLines` | src/Noundry.TagHelpers/AutoHideTagHelper.cs:124-132 | The set-up block is seven lines, and its sixth sets the transition the effect plays through. |
| `AutoHide.TransitionLineReadsBack` | src/Noundry.TagHelpers/AutoHideTagHelper.cs:131 | The transition reads back as lasting exactly the configured animation duration, in milliseconds. |
| `AutoHide.FinishLineReadsBack` | src/Noundry.TagHelpers/AutoHideTagHelper.cs:156-163 | The finishing statement reads back as "remove" exactly when `remove-from-dom` is set, otherwise as "display none", and in both cases with the animation's duration. |
| `AutoHide.HideLines` | src/Noundry.TagHelpers/AutoHideTagHelper.cs:135-165 | The hide function holds the effect statements from its third line on, followed by the finishing statement. |
| `AutoHide.LogLineAsWrittenIgnoresId` | src/Noundry.TagHelpers/AutoHideTagHelper.cs:117 | The debug logger as written tags its messages with the literal text `{elementId}`, not the element's id (here `box`). |
| `AutoHide.LogLineNamesElement` | src/Noundry.TagHelpers/AutoHideTagHelper.cs:115-118 | The corrected debug logger tags its messages with the element's id. |
| `AutoHide.StartTimerLines` | src/Noundry.TagHelpers/AutoHideTagHelper.cs:169-174 | `startTimer` clears a pending timer, then announces the delay, then arms the timer with it. |
| `AutoHide.TimerLogLineReadsBack` | src/Noundry.TagHelpers/AutoHideTagHelper.cs:171 | The announcement reads back as the configured delay in seconds, not wrapped to 32 bits. |
| `AutoHide.TimerDelayReadsBack` | src/Noundry.TagHelpers/AutoHideTagHelper.cs:172 | The armed timer reads back as the delay in milliseconds computed in 32-bit arithmetic, which is exactly `delay * 1000` for delays from 0 to 2147483 seconds. |
| `AutoHide.LongDelayWraps` | src/Noundry.TagHelpers/AutoHideTagHelper.cs:172 | A delay of 2147484 seconds overflows to a negative timeout. |
| `AutoHide.HoverTarget` | src/Noundry.TagHelpers/AutoHideTagHelper.cs:179 | A missing (null) or empty selector makes the hover target the element itself. |
| `AutoHide.HoverTargetReadsBack` | src/Noundry.TagHelpers/AutoHideTagHelper.cs:179 | A non-empty selector reads back from the hover target's `document.querySelector('…')`. |
| `AutoHide.HoverLines` | src/Noundry.TagHelpers/AutoHideTagHelper.cs:177-196 | The hover block is empty exactly when the selector is the empty string. Otherwise it has 15 lines, and its first line declares `hoverTarget` as the hover target. |
| `AutoHide.HandleName` | src/Noundry.TagHelpers/AutoHideTagHelper.cs:199 | The global handle is `autoHide_` followed by the id with every '-' turned into '_'. Its length is the prefix's plus the id's, and no '-' is left after the prefix. |
| `AutoHide.HandleLines` | src/Noundry.TagHelpers/AutoHideTagHelper.cs:198-207 | The handle block assigns `window.` plus the handle name. The object exposes `start` as the timer's start and `hide` as the hide function, and its `cancel` clears the pending timer. |
| `AutoHide.HandleNameRecoversId` | src/Noundry.TagHelpers/AutoHideTagHelper.cs:199 | For an id without '_', turning the handle's '_' back into '-' after the prefix gives back the id. |
| `AutoHide.HandleNameInjective` | src/Noundry.TagHelpers/AutoHideTagHelper.cs:199 | Two ids without '_' that share a handle are equal. Generated ids are of this kind. |
| `AutoHide.HandlesCanCollide` | src/Noundry.TagHelpers/AutoHideTagHelper.cs:199 | Distinct ids `a-b` and `a_b` share one global handle. |
| `AutoHide.ScriptLines` | src/Noundry.TagHelpers/AutoHideTagHelper.cs:106-219 | The script opens the wrapper function and looks the element up by its id. Its fifth line is the logger exactly as the helper writes it for the debug flag, and it ends with the closing line. |
| `AutoHide.ScriptHideThenTimer` | src/Noundry.TagHelpers/AutoHideTagHelper.cs:134-174 | Starting at line index 12 (the thirteenth line), the script holds the whole hide function, and right after it the whole timer function. |
| `AutoHide.ScriptHoverThenHandle` | src/Noundry.TagHelpers/AutoHideTagHelper.cs:176-207 | Right after the timer function come the whole hover block and then the whole global-handle block. |
| `AutoHide.ScriptHidesAsConfigured` | src/Noundry.TagHelpers/AutoHideTagHelper.cs:134-165 | The statements at the start of the script's hide function read back as exactly the configured effect: the transform, if any, and then the fade-out. It then removes the element exactly when `remove-from-dom` is set, or else hides it, after the animation's duration. |
| `AutoHide.ScriptPausesOnHover` | src/Noundry.TagHelpers/AutoHideTagHelper.cs:176-196 | The line after the timer function declares the hover target exactly when the selector is not the empty string. With no selector, that target is the element itself. |
| `AutoHide.ScriptTargetsElement` | src/Noundry.TagHelpers/AutoHideTagHelper.cs:111 | Reading the element lookup back out of the script yields exactly the given id. |
| `AutoHide.ScriptArmsTimer` | src/Noundry.TagHelpers/AutoHideTagHelper.cs:169-174 | The script contains the statement that arms the timer with the configured delay, and the debug message announcing that delay in seconds. |
| `AutoHide.AutoStartOnlyAddsCall` | src/Noundry.TagHelpers/AutoHideTagHelper.cs:209-216 | With auto-start on, the script is the one without auto-start plus the three auto-start lines just before the closing line. Nothing else differs. |
| `AutoHide.DebugOnlyChangesLogger` | src/Noundry.TagHelpers/AutoHideTagHelper.cs:115-122 | Debug mode changes the logger line and no other line of the script. |
| `AutoHide.CorrectedScriptNamesElement` | src/Noundry.TagHelpers/AutoHideTagHelper.cs:115-118 | The corrected script differs from the written one only in the logger line. With debug on, the written logger tags messages with `{elementId}` and the corrected one with the element's id. With debug off, the two scripts are the same. |
| `AutoHide.FadeAndConceal` | src/Noundry.TagHelpers/AutoHideTagHelper.cs:134-165 | With the fade effect and `remove-from-dom` off, the hide function's first statement is the fade-out alone, and the next one hides the element without removing it after the animation's duration. |
| `AutoHide.FadePausesOnElement` | src/Noundry.TagHelpers/AutoHideTagHelper.cs:176-181 | After a fade hide function, a script with no selector declares the element itself as the hover target on line index 24. |
| `AutoHide.ScriptEndsByStarting` | src/Noundry.TagHelpers/AutoHideTagHelper.cs:209-216 | With auto-start on, the three lines before the closing line are the auto-start block. |
| `AutoHide.DefaultScript` | src/Noundry.TagHelpers/AutoHideTagHelper.cs:17-59 | With every option at its default, the script arms a 5000 ms timer. Its hide function starts with the fade-out statement alone, which reads back as the fade effect. It hides the element without removing it 300 ms later. It pauses while the element itself is hovered and starts on its own. |
| `AutoHide.AutoHideAttributes` | src/Noundry.TagHelpers/AutoHideTagHelper.cs:77-95 | The id is set to the target id. An `<auto-hide>` element without a class gets the default classes; otherwise the class is kept, and so is every other attribute. |
| `AutoHide.Process` | src/Noundry.TagHelpers/AutoHideTagHelper.cs:62-104 | A suppressed element, or one with auto-hide off, is untouched. Otherwise an `<auto-hide>` tag becomes a `<div>` and the attributes are fixed up. The script, as the helper writes it, is appended after the existing post-content, and the content is unchanged. |
| `AutoHide.ScriptTargetsRenderedId` | src/Noundry.TagHelpers/AutoHideTagHelper.cs:78-103 | The appended script targets the id the rendered element carries. |
| `FormGroup.LabelPrecedence` | src/Noundry.TagHelpers/FormGroupTagHelper.cs:109-110 | An explicit label always wins, even an empty one. The display name comes next and the property name last. An explicit `required` wins over the metadata. |
| `FormGroup.LabelTag` | src/Noundry.TagHelpers/FormGroupTagHelper.cs:112-120 | The label points at the property and carries the label class. Its text comes first, encoded. It has the red asterisk exactly when the field is required. |
| `FormGroup.InputAttributes` | src/Noundry.TagHelpers/FormGroupTagHelper.cs:125-145 | The editor gets `class`, `id` and `name` always, with `id` and `name` equal to the property name. It gets `placeholder`, `type` and `required` exactly when they are given or required, each with its value. |
| `FormGroup.Fields` | src/Noundry.TagHelpers/FormGroupTagHelper.cs:108-164 | The label comes first and the editor second. The help text is present exactly when given, and the validation message exactly when enabled, as the last field. |
| `FormGroup.FieldsAgreeOnProperty` | src/Noundry.TagHelpers/FormGroupTagHelper.cs:113-162 | The label's `for`, the editor's `id` and `name` and the validation message all name the same property. |
| `FormGroup.RequiredMarksAgree` | src/Noundry.TagHelpers/FormGroupTagHelper.cs:117-145 | The asterisk on the label and the `required` attribute on the editor appear together, exactly when the field is required. |
| `FormGroup.Process` | src/Noundry.TagHelpers/FormGroupTagHelper.cs:93-165 | A suppressed element is untouched. Otherwise it becomes a `<div>` with the container class, other attributes are kept, and the fields are appended to the content. |
| `FormGroup.DefaultFormGroup` | src/Noundry.TagHelpers/FormGroupTagHelper.cs:35-83 | With every option at its default, the container class is `mb-3`. The fields are the label, the editor and the validation message. The editor gets `class="form-control"`, `id` and `name`, plus `required` exactly when the metadata requires it. The label falls back to the display name, then the property name. |
| `FormGroup.GroupKeepsEarlierContent` | src/Noundry.TagHelpers/FormGroupTagHelper.cs:122 | The group's content is written, so child content no longer renders. Earlier content stays, followed by the label. |
| `ValidationMessage.Added` | src/Noundry.TagHelpers/ValidationMessageTagHelper.cs:73-91 | At most one fragment is added. The custom message, encoded, appears exactly when it is given. The framework's message appears exactly when there is no custom message, a property is named and the framework renders something; the call is always for that property. |
| `ValidationMessage.Process` | src/Noundry.TagHelpers/ValidationMessageTagHelper.cs:58-92 | A suppressed element is untouched. Otherwise it becomes a `<div>` with the configured class. The content is written only when something is added. |
| `ValidationMessage.CustomMessageWins` | src/Noundry.TagHelpers/ValidationMessageTagHelper.cs:73-91 | A custom message is shown whether or not a property is named, and the framework is not consulted. |
| `ValidationMessage.NothingToShowKeepsChildContent` | src/Noundry.TagHelpers/ValidationMessageTagHelper.cs:73-91 | With nothing to add, the content stays unwritten, so the element's own child content renders inside the container. |
| `ValidationMessage.DefaultValidationMessage` | src/Noundry.TagHelpers/ValidationMessageTagHelper.cs:30-48 | With every option at its default, the element becomes a `<div>` with class `mt-1 text-sm text-red-600`, and its content is left as it was. |
| `ValidationMessage.ShowAsListIsIgnored` | src/Noundry.TagHelpers/ValidationMessageTagHelper.cs:41-42 | `show-as-list` changes nothing. |
| `Pipeline.SuppressionIsFinal` | src/Noundry.TagHelpers/AuthzTagHelper.cs:152-172 | Once the gate has suppressed an element, every other helper leaves it exactly as it is: no tag, no content, no script. This includes the datalist helper, if it were run after the gate. |
| `Pipeline.DatalistCommutesWithGate` | src/Noundry.TagHelpers/DatalistTagHelper.cs:22 | The datalist helper runs at order -1000, before the gate at order -10 (AuthzTagHelper.cs:35), and changes nothing the gate reads. Whether the element counts as suppressed, which list decides and whether it shows are the same with or without it. Suppressing after the datalist helper gives the same element as running the datalist helper after suppressing, so the two orders agree. |
| `Pipeline.GateIgnoresPostContent` | src/Noundry.TagHelpers/AuthzTagHelper.cs:65-157 | Replacing an element's post-content changes neither the gate's decision nor the element it suppresses to. |

## Left out

- Authz.Process: the view-data cache is modelled with exact keys, but ASP.NET's `ViewDataDictionary` compares keys ignoring case. So a list such as `Admin,admin` asks the service once in the framework and twice in the model. The service's own policy lookup also ignores case, so the outcome is the same.
- Authz.Process: a view-data entry under a policy key that is not a `bool` makes the cast throw; the model's cache holds only booleans.
- Alert.Render: the alert's content is a sequence of fragments (raw HTML, encoded text), not the single string the helper builds. HTML encoding itself and `TagBuilder` rendering are not modelled.
- Alert.Process: the dismiss script removes the first element on the page with the given role, which need not be this alert. That DOM behaviour is outside the model; the model only records the script.
- AutoHide.HandleName: two ids that differ only in '-' versus '_' share one global handle, so the later script overwrites the earlier one (`AutoHide.HandlesCanCollide`). This is recorded, not corrected.
- The JavaScript the auto-hide helper writes is modelled as its lines of text; the browser's execution of it is not modelled. `Environment.NewLine` is one `LineBreak` fragment.
- The other tag helpers of the library are not part of this model: markdown, lazy loading, `enabled` and the conditional helper. Only the conditional helper's result is modelled, as the `suppressedByIf` flag. Dependency-injection registration and the sample pages are not part of this model either.
- `Guid.NewGuid()` becomes the `suffix` parameter. The authorization service, the user's authentication and `IHtmlHelper` become parameters or symbolic fragments, and `Contextualize` is not modelled.
- Async execution and `GetChildContentAsync` are not modelled; the child content is a value of the element.
- A null string and the empty string are merged wherever the helper only tests `string.IsNullOrEmpty`. `Option` keeps them apart where `??` or a null test makes a difference:
  - the form-group label, display name and `required` flag;
  - the auto-hide `pause-on-hover` selector;
  - `asp-validation-for`;
  - `auto-dismiss`.
- A null effect name on the auto-hide helper and a missing `asp-for` on the form-group helper throw `NullReferenceException`; the model has no null for these and so no such path. A null label class (`AddCssClass(null)`) is treated as the empty string.
- Case-insensitive comparison is modelled with ASCII lower-casing only. Non-ASCII case folding and culture-specific number formatting are not modelled.
- AutoHide.ParseEffect: the helper lower-cases the effect name with the current culture's `ToLower()`. Under a Turkish culture, `SCALE` would lower-case to a dotless ı and select the fade effect. The model lower-cases ASCII letters only.
- Html.SetAttr: `TagHelperAttributeList` keeps the attributes in order and remembers each name as first written. The model keeps one entry per lower-cased name, so it loses attribute order and the written case of names.
- `show-as-list` on the validation helper is bound but never read by the helper, and the model reflects that (`ValidationMessage.ShowAsListIsIgnored`).
- `tests/Noundry.TagHelpers.Tests/AutoHideTagHelperTests.cs:87-119` expects an element named `asp-auto-hide` to become a `<div>`. The helper compares the tag name with `auto-hide`, and the model follows the helper.

## Findings

| source | as written | input that shows it | evidently intended | confidence | as-written member | corrected member |
|---|---|---|---|---|---|---|
| src/Noundry.TagHelpers/AutoHideTagHelper.cs:117 | The debug logger line is an ordinary (non-interpolated) string, so every element's messages are tagged with the literal text `{elementId}`. | `debug="true"` on an element with id `box`: the messages read `[AutoHide:{elementId}] …`. | The neighbouring lines interpolate `elementId`, so the tag should be the element's id: `[AutoHide:box] …`. | not executed | `AutoHide.LogLineAsWrittenIgnoresId` | `AutoHide.LogLineNamesElement` |

`AutoHide.ScriptLines`, and so `AutoHide.Process`, writes the logger as the helper does (`AutoHide.LogLineAsWritten`). `AutoHide.CorrectedScriptLines` is the evidently intended script, which uses the corrected logger `AutoHide.LogLine`. `AutoHide.CorrectedScriptNamesElement` states how the two differ.
