# UIManager localization binding, modelled in Dafny

`UIManager` is a Unity controller. It binds the fields of a binding asset, by name, to the elements of a UI document's visual tree:

- a **button** of a field's name gets the handler `"On" + name` on its click event;
- a **dropdown** of that name is populated from the field's localized string, split on commas: the first token is its label, the other tokens are its choices, and the first choice is its value. It then gets the handler on its value-changed event;
- a **text element** of that name shows the localized string.

When the locale changes, the controller does three things for every field:

- it stores the field's new localized string in the asset;
- it writes that string into the field's text element;
- it relabels the field's dropdown. The choice at the position the old value held becomes the new value.

A button cycles through the available locales, wrapping to the first after the last. Activation records one unsubscribe action per binding, and deactivation runs them in order and clears the list.

The model has six modules, one file each:

- `Tokens` (`tokens.dfy`): `String.Split(char)` on values and its inverse `Join`.
- `Selector` (`selector.dfy`): the label/choice parse of a localized string. It also holds a dropdown's population on activation (`Populate`) and its relabel on a locale change (`Relabel`). Both are `None` exactly where the C# code indexes a list out of range.
- `LocaleCycle` (`locale_cycle.dfy`): the locale-index arithmetic of the change-language button.
- `Bindings` (`bindings.dfy`): the unsubscribe actions activation records, as a function of the field names and the element names.
- `Passes` (`passes.dfy`): the activation pass and the locale-change pass over the fields, on values.
  - A `Scene` holds the asset's values and the state of the elements, by name.
  - `RunPass` visits the fields in order. It stops at the first field whose step throws, and keeps what that step wrote before the throw.
  - The lemmas say what each pass leaves and where it stops.
- `Controller` (`ui_manager.dfy`): the class `UIManager`.
  - Its fields are the controller's state: the scene, the selected locale, the locale index, the unsubscribe list, and the locale-changed subscription count.
  - Its methods are the C# methods, with their `foreach` loops.
  - Each pass method is proved to leave the scene as `RunPass` computes it from the scene before.

Exceptions are modelled as results. An out-of-range list index ends a pass with `Aborted(i)`, where `i` is the index of the field it stopped at. Every property write the C# code makes before the throw is kept, because the label is written before the value.

Three behaviours of the code worth stating:

- A value that cannot be carried over to the new choices makes the locale change throw. There is no fallback to the first choice.
- Activation does not write a button's text.
- `OnLanguageChanged` ignores its `newLocale` argument. It reads the backend's selected locale.

## Model

| member | source | states |
|---|---|---|
| Tokens.Split | UIManager.cs:43 | Splitting on a separator gives at least one piece, and no piece contains the separator. |
| Tokens.JoinSplit | UIManager.cs:43 | Joining the pieces of a split with the separator gives back the original string. |
| Tokens.SplitJoin | UIManager.cs:43 | Splitting a join of one or more separator-free pieces gives back those pieces. |
| Tokens.SplitWhole | UIManager.cs:43 | A string without the separator splits into itself alone. |
| Tokens.SplitFirst | UIManager.cs:43 | A separator-free prefix followed by the separator splits off as the first piece. |
| Tokens.SplitCount | UIManager.cs:43 | There is one piece more than the string has separators. |
| Tokens.SeveralPieces | UIManager.cs:43-46 | There are at least two pieces exactly when the separator occurs in the string. |
| Tokens.FirstPiece | UIManager.cs:43-44 | The first piece is the longest separator-free prefix, followed in the string by the separator or by nothing. |
| Selector.Parse | UIManager.cs:43-45 | Neither the label nor any choice contains a comma. |
| Selector.ParseRoundTrip | UIManager.cs:43-45 | Joining the label and the choices with commas reproduces the localized string. |
| Selector.JoinParse | UIManager.cs:89-93 | Comma-free labels and choices are recovered exactly by parsing their comma join. |
| Selector.ParseLabel | UIManager.cs:43-45 | The label is the text before the first comma, or the whole string when there is none; there is one choice per comma. |
| Selector.Populate | UIManager.cs:43-47 | A populated dropdown has a comma-free label, and its value is one of its choices. |
| Selector.Relabel | UIManager.cs:89-96 | A relabel succeeds only when the old value is one of the old choices, and the new value is one of the new choices. |
| Selector.IndexOf | UIManager.cs:91 | The result is -1 exactly when the element is absent, and otherwise the position of its first occurrence. |
| Selector.PopulateSpec | UIManager.cs:43-47 | Activation can populate a dropdown exactly when the string holds a comma, so that `choises[0]` exists. The label is then the first token, the value the second token, and the choices all tokens after the first. |
| Selector.RelabelSpec | UIManager.cs:89-96 | A relabel is defined exactly when the old value is an old choice whose first position exists in the new choices. The new value is then the new choice at that position, the choices are the new ones, and the label is the new first token. |
| Selector.RelabelSameString | UIManager.cs:89-96 | Relabelling to the string the choices came from keeps the value. |
| Selector.RelabelRoundTrip | UIManager.cs:89-96 | Switching locale strings from `a` to `b` and back to `a` restores the value, when `b` has at least as many choices as `a` and no repeated choice. |
| Selector.PopulateThenRelabel | UIManager.cs:89-96 | A freshly populated dropdown relabels exactly when the new string holds a comma, and then shows the new first choice. |
| LocaleCycle.NextIndex | UIManager.cs:105-109 | With locales available and a starting index of at least -1, the next index lies in [0, count). It is always either 0 or the old index plus one below the count. |
| LocaleCycle.CyclePosition | UIManager.cs:105-109 | The index after up to `count` presses is the old index plus the presses, wrapped once past the last locale. |
| LocaleCycle.CycleReturns | UIManager.cs:105-109 | Pressing `count` times from an in-range index returns to that index. |
| LocaleCycle.CycleVisitsEachOnce | UIManager.cs:105-109 | Within one round of fewer than `count` presses no index is visited twice. |
| LocaleCycle.SingleLocale | UIManager.cs:105-109 | With one locale, every press from an index of at least -1 lands on 0. |
| Bindings.DistinctPairwise | UIManager.cs:23 | Field names are distinct, in the recursive definition, exactly when any two positions hold different names. |
| Bindings.DistinctPrefix | UIManager.cs:30 | A prefix of distinct field names is distinct, and no later name occurs in it. |
| Bindings.HandlerName | UIManager.cs:36 | A field's handler name is the field's name after a two-character prefix. |
| Bindings.Registration | UIManager.cs:37-50 | A field records no action exactly when it matches neither a button nor a dropdown. |
| Bindings.HandlerNameInjective | UIManager.cs:36 | Different fields dispatch to different `"On" + name` handlers. |
| Bindings.RegistrationsSpec | UIManager.cs:30-54 | The actions `Registrations` records for a sequence of fields: one action is recorded per field matching a button or a dropdown, in field order. It is a click detach exactly when the field matches a button, so buttons take priority. |
| Bindings.MatchingMembers | UIManager.cs:30-54 | A field is matched exactly when it is one of the fields and matches an element name. |
| Bindings.MatchingDistinct | UIManager.cs:30-54 | The matched fields of distinct fields are distinct. |
| Bindings.AtMostOnePerField | UIManager.cs:30-54 | With distinct field names each field records at most one action. A field records one exactly when it matches a button or a dropdown. |
| Passes.BindStep | UIManager.cs:33-52 | One activation step changes neither the asset nor any text. It fails only on a field that names a dropdown and no button. |
| Passes.RefreshStep | UIManager.cs:77-97 | One locale-change step changes no click handler. It fails only on a field that names a dropdown. |
| Passes.RunPass | UIManager.cs:30-54 | A pass visits the fields in order and stops at the first step that fails; a stopped pass stopped at one of the fields. |
| Passes.BindStepCases | UIManager.cs:33-52 | One activation step, by case:<br>- a button appends the handler to its click event, and no dropdown is looked up;<br>- otherwise a dropdown is populated and bound when the string holds a comma, and stops the pass after only its label is written when it does not;<br>- otherwise nothing changes. |
| Passes.AbortedStays | UIManager.cs:46 | After a throw no later field is visited: a pass that stopped within a prefix stops there on all fields. |
| Passes.PassAdvances | UIManager.cs:75-98 | From the scene left after `i` fields, the step of field `i` either completes the pass over `i + 1` fields, or stops the whole pass at `i`. |
| Passes.StoppedAt | UIManager.cs:75-98 | A pass that stopped at field `k` completed the fields before `k`. Field `k`'s step from there failed and left the final scene. |
| Passes.ActivationKeeps | UIManager.cs:30-54 | Activation changes neither the asset nor any text, and no element appears or disappears. |
| Passes.ActivationOutcome | UIManager.cs:30-54 | Activation completes exactly when no field is unpopulatable; an unpopulatable field names a dropdown but no button, and its string has no comma. Otherwise it stops at the first unpopulatable field. |
| Passes.ActivationCompleted | UIManager.cs:30-54 | After a completed activation with distinct fields:<br>- every button named by a field has its handler appended once;<br>- every dropdown named by a field, and by no button, shows the population of its string and has its handler appended once;<br>- every other element is unchanged. |
| Passes.ActivationEffect | UIManager.cs:30-54 | The same for a stopped activation, over the fields it completed; the dropdown it stopped at has only its label rewritten. |
| Passes.LocaleChangeKeeps | UIManager.cs:75-98 | A locale change moves no click handler, and no element appears or disappears. |
| Passes.LocaleChangeWrites | UIManager.cs:75-84 | A completed locale change stores every field's localized string as its value and in its text element. No other value or text changes. |
| Passes.LocaleChangeRelabels | UIManager.cs:86-97 | A completed locale change with distinct fields relabels every field's dropdown from its old state, moves no value-changed handler, and leaves other dropdowns unchanged. |
| Passes.LocaleChangeCompleted | UIManager.cs:75-98 | A completed locale change with distinct fields satisfies both of the above. |
| Passes.LocaleChangeStoppedWrites | UIManager.cs:75-84 | A locale change stopped at field `k` stored the strings of the fields up to and including `k`, and no others. |
| Passes.LocaleChangeStored | UIManager.cs:75-84 | Every locale change stores the string of each field up to the one it stopped at, in values and texts. Every other entry is unchanged. |
| Passes.LocaleChangeDropdowns | UIManager.cs:86-97 | For every locale change with distinct fields:<br>- the dropdowns of the fields before the stop are relabelled;<br>- the dropdown at the stop has only its label rewritten;<br>- no handler moves, and other dropdowns are unchanged. |
| Passes.LocaleChangeOutcome | UIManager.cs:89-96 | A locale change with distinct fields completes exactly when no field's dropdown in the starting scene is unrelabelable. Otherwise it stops at the first such field. |
| Controller.ActivationRecords | UIManager.cs:37-50 | Over the activation loop, each field's actions are appended after those of the fields before it. The step may use the current scene's element names, since activation keeps them. |
| Controller.UIManager.constructor | UIManager.cs:14-18 | A controller starts with locale index 0, no recorded action and no subscription. |
| Controller.UIManager.OnEnable | UIManager.cs:20-55 | Activation subscribes once to locale changes and leaves the scene as the activation pass computes it. The unsubscribe list grows by the registrations of exactly the fields it completed. |
| Controller.UIManager.BindField | UIManager.cs:31-52 | One loop iteration performs one activation step, and records that field's action only when the step succeeds. |
| Controller.UIManager.OnDisable | UIManager.cs:57-65 | Deactivation unsubscribes once and runs every recorded action exactly once, in insertion order. It leaves the list empty, so a second deactivation runs nothing. |
| Controller.UIManager.OnLanguageChanged | UIManager.cs:73-99 | A locale change leaves the scene as the locale-change pass computes it at the selected locale. The `newLocale` argument is unread. |
| Controller.UIManager.RefreshField | UIManager.cs:75-97 | One loop iteration performs one locale-change step. |
| Controller.UIManager.SetLanguageIndex | UIManager.cs:66-71 | The index becomes the selected locale's position, or -1 exactly when that locale is not available. The locale change is then applied. |
| Controller.UIManager.OnChangeLanguageButton | UIManager.cs:101-112 | The index advances with wrap-around, and the locale at the new index becomes selected. With no locale available the index becomes 0 and selection fails, where `Locales[0]` throws. |

## Left out

- The Unity life cycle and coroutines (UIManager.cs:26, 68, 103). `OnEnable`, `OnDisable` and the coroutine continuations are plain method calls, and waiting for the backend's initialisation is not modelled.
  - `SetLanguageIndex` is the continuation started at line 26.
  - The backend raising `SelectedLocaleChanged` after line 110 is left to the caller: it calls `OnLanguageChanged` once per subscription.
- Reflection (UIManager.cs:23, 77). The binding asset's fields are a fixed sequence of names, and their values are a map in the scene. `BindingAsset.cs` only declares the fields and is not part of this model.
- The visual tree and its elements are a value: each name maps to a button's click handlers, a dropdown's label, choices, value and value-changed handlers, and a text element's text. The controller reassigns this value, so element identity and aliasing between elements are not modelled. Searching the tree with `Q<T>` is a lookup in these maps.
- Delegates: a handler is recorded by its name, `"On" + field`. The unsubscribe lambdas (UIManager.cs:37, 50) build new delegates, so in C# they detach nothing. The model records and runs them, and claims nothing about detaching. Dispatching a handler to a coroutine is not modelled.
- `Debug.Log` (UIManager.cs:83) and `OnDropDownSample` (UIManager.cs:113-117), which only logs.
- The localization backend's internals: lookup is a given function from a locale and a key to a string.
- Element-type subtleties, such as a Unity button also matching `Q<TextElement>`. The three maps are independent lookups.
- Throws are results, not exceptions: `Aborted(i)` from a pass, and `ok == false` from the change-language button.
- Field names are the names of one type's fields, so they are distinct. Only the lemmas that need this assume it; the controller's methods do not.
