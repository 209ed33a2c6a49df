/**
 * The UI manager controller: binds the fields of a binding asset to the
 * elements of a visual tree by name, refreshes them when the locale changes
 * and cycles through the available locales.
 *
 * The elements the controller queries by name (buttons, dropdown fields,
 * text elements) are held with the asset's values as one Scene value; the
 * localization backend is a function from a locale and a key to the
 * localized string, read at the controller's selected locale.  Each pass
 * is proved to leave the scene as the pass of the same name in module
 * Passes computes from the scene before it.
 */
module Controller {
  import opened Tokens
  import opened Selector
  import opened Bindings
  import opened LocaleCycle
  import opened Passes

  type Locale = string

  /**
   * One more field of the activation pass, for the actions recorded: from
   * the scene `sc` the pass has left after the first `i` fields, which has
   * the elements the pass started with, field `i` records its actions after
   * those of the fields before it.
   */
  lemma ActivationRecords(start: Scene, fs: seq<string>, i: nat, sc: Scene,
                          localize: (string, string) -> string, locale: string,
                          initial: seq<Unsubscribe>, recorded: seq<Unsubscribe>)
    requires i < |fs|
    requires RunPass(Activation, start, fs[..i], localize, locale).scene == sc
    requires recorded == initial + Registrations(fs[..i], start.clicks.Keys, start.dropdowns.Keys)
    ensures recorded + Registration(fs[i], sc.clicks.Keys, sc.dropdowns.Keys)
         == initial + Registrations(fs[..i + 1], start.clicks.Keys, start.dropdowns.Keys)
  {
    assert fs[..i + 1] == fs[..i] + [fs[i]];
    RegistrationsSnoc(fs[..i], fs[i], start.clicks.Keys, start.dropdowns.Keys);
    ActivationKeeps(start, fs[..i], localize, locale);
  }

  /**
   * The controller attached to a UI document.  The state of the elements it
   * finds by name in the document's visual tree, together with the binding
   * asset's field values, is the value `scene`; the methods reassign it as
   * the source writes the elements' properties one by one.
   */
  class UIManager {
    /** The binding asset's field names, in declaration order. */
    const fields: seq<string>
    /** The binding asset's field values and the elements of the visual tree, by name. */
    var scene: Scene

    /** The localization backend: available locales, lookup, selected locale. */
    const locales: seq<Locale>
    const localize: (Locale, string) -> string
    var selectedLocale: Locale

    var languageIndex: int
    var unsubscribeCallbacks: seq<Unsubscribe>
    /** How many times OnLanguageChanged is subscribed to the locale-changed event. */
    var localeSubscriptions: nat

    /** The locale index is -1 (selected locale not available) or a position, or 0 with no locale. */
    ghost predicate Valid()
      reads this`languageIndex
    {
      -1 <= languageIndex && (languageIndex < |locales| || languageIndex == 0)
    }

    constructor (fields: seq<string>, scene: Scene,
                 locales: seq<Locale>, localize: (Locale, string) -> string, selectedLocale: Locale)
      ensures Valid()
      ensures this.fields == fields && this.scene == scene
      ensures this.locales == locales && this.localize == localize && this.selectedLocale == selectedLocale
      ensures languageIndex == 0 && unsubscribeCallbacks == [] && localeSubscriptions == 0
    {
      this.fields := fields;
      this.scene := scene;
      this.locales := locales;
      this.localize := localize;
      this.selectedLocale := selectedLocale;
      languageIndex := 0;
      unsubscribeCallbacks := [];
      localeSubscriptions := 0;
    }

    /** The localized string for key `f` at the selected locale. */
    function Localized(f: string): string
      reads this`selectedLocale
    {
      localize(selectedLocale, f)
    }

    /**
     * Activation: subscribe to locale changes, then bind the fields in
     * order as BindStep describes, recording one unsubscribe action per
     * binding, until a dropdown's string has no choice.
     */
    method OnEnable() returns (r: Outcome)
      modifies this`scene, this`unsubscribeCallbacks, this`localeSubscriptions
      ensures localeSubscriptions == old(localeSubscriptions) + 1
      ensures Run(scene, r) == RunPass(Activation, old(scene), fields, localize, selectedLocale)
      ensures r.Aborted? ==> r.at < |fields|
      ensures unsubscribeCallbacks == old(unsubscribeCallbacks)
        + Registrations(fields[..if r.Completed? then |fields| else r.at],
                        old(scene).clicks.Keys, old(scene).dropdowns.Keys)
    {
      ghost var start := scene;
      localeSubscriptions := localeSubscriptions + 1;
      var i := 0;
      while i < |fields|
        invariant 0 <= i <= |fields|
        invariant localeSubscriptions == old(localeSubscriptions) + 1
        invariant RunPass(Activation, start, fields[..i], localize, selectedLocale) == Run(scene, Completed)
        invariant unsubscribeCallbacks
                  == old(unsubscribeCallbacks) + Registrations(fields[..i], start.clicks.Keys, start.dropdowns.Keys)
      {
        ghost var before := scene;
        ghost var recorded := unsubscribeCallbacks;
        var ok := BindField(fields[i]);
        PassAdvances(Activation, start, fields, i, before, scene, ok, localize, selectedLocale);
        ActivationRecords(start, fields, i, before, localize, selectedLocale, old(unsubscribeCallbacks), recorded);
        if !ok {
          return Aborted(i);
        }
        i := i + 1;
      }
      assert fields[..|fields|] == fields;
      r := Completed;
    }

    /**
     * One iteration of the activation loop, for field `f`: bind it to the
     * button of that name, else populate the dropdown of that name and bind
     * it; `ok` is false when the dropdown's string has no choice, after the
     * caption has been written.
     */
    method BindField(f: string) returns (ok: bool)
      modifies this`scene, this`unsubscribeCallbacks
      ensures Step(scene, ok) == BindStep(old(scene), f, Localized(f))
      ensures unsubscribeCallbacks == old(unsubscribeCallbacks)
        + if ok then Registration(f, old(scene).clicks.Keys, old(scene).dropdowns.Keys) else []
    {
      ok := true;
      if f in scene.clicks {
        scene := scene.(clicks := scene.clicks[f := scene.clicks[f] + [HandlerName(f)]]);
        unsubscribeCallbacks := unsubscribeCallbacks + [DetachClick(f)];
        return;
      }
      if f in scene.dropdowns {
        var d := scene.dropdowns[f];
        var s := Localized(f);
        var choices := Split(s, Comma);
        var caption := choices[0];
        choices := choices[1..];
        d := d.(shown := d.shown.(caption := caption));
        scene := scene.(dropdowns := scene.dropdowns[f := d]);
        if |choices| == 0 {
          return false;
        }
        d := d.(shown := d.shown.(value := choices[0]));
        d := d.(shown := d.shown.(choices := choices));
        d := d.(valueChanged := d.valueChanged + [HandlerName(f)]);
        scene := scene.(dropdowns := scene.dropdowns[f := d]);
        unsubscribeCallbacks := unsubscribeCallbacks + [DetachValueChanged(f)];
      }
    }

    /**
     * Deactivation: unsubscribe from locale changes, run every recorded
     * unsubscribe action once in the order recorded (returned as `ran`) and
     * clear the list.
     */
    method OnDisable() returns (ran: seq<Unsubscribe>)
      modifies this`unsubscribeCallbacks, this`localeSubscriptions
      ensures ran == old(unsubscribeCallbacks)
      ensures unsubscribeCallbacks == []
      ensures localeSubscriptions == if old(localeSubscriptions) > 0 then old(localeSubscriptions) - 1 else 0
    {
      if localeSubscriptions > 0 {
        localeSubscriptions := localeSubscriptions - 1;
      }
      ran := [];
      var k := 0;
      while k < |unsubscribeCallbacks|
        invariant 0 <= k <= |unsubscribeCallbacks|
        invariant ran == unsubscribeCallbacks[..k]
      {
        ran := ran + [unsubscribeCallbacks[k]];
        k := k + 1;
      }
      unsubscribeCallbacks := [];
    }

    /**
     * Locale change: refresh the fields in order as RefreshStep describes,
     * until a dropdown's value cannot be carried over.  The lookup uses the
     * backend's selected locale; `newLocale` is not read.
     */
    method OnLanguageChanged(newLocale: Locale) returns (r: Outcome)
      modifies this`scene
      ensures Run(scene, r) == RunPass(LocaleChange, old(scene), fields, localize, selectedLocale)
    {
      ghost var start := scene;
      var i := 0;
      while i < |fields|
        invariant 0 <= i <= |fields|
        invariant RunPass(LocaleChange, start, fields[..i], localize, selectedLocale) == Run(scene, Completed)
      {
        ghost var before := scene;
        var ok := RefreshField(fields[i]);
        PassAdvances(LocaleChange, start, fields, i, before, scene, ok, localize, selectedLocale);
        if !ok {
          return Aborted(i);
        }
        i := i + 1;
      }
      assert fields[..|fields|] == fields;
      r := Completed;
    }

    /**
     * One iteration of the locale-change loop, for field `f`: store the
     * localized string in the asset and in the text element of that name,
     * then relabel the dropdown of that name; `ok` is false when the old
     * value's position does not exist in the new choices, after the caption
     * has been written.
     */
    method RefreshField(f: string) returns (ok: bool)
      modifies this`scene
      ensures Step(scene, ok) == RefreshStep(old(scene), f, Localized(f))
    {
      ok := true;
      var s := Localized(f);
      ghost var start := scene;
      scene := scene.(asset := scene.asset[f := s]);
      if f in scene.texts {
        scene := scene.(texts := scene.texts[f := s]);
      }
      ghost var written := scene;
      assert written == start.(asset := start.asset[f := s],
                               texts := if f in start.texts then start.texts[f := s] else start.texts);
      if f in scene.dropdowns {
        var d := scene.dropdowns[f];
        var choices := Split(s, Comma);
        var actualIndex := IndexOf(d.shown.choices, d.shown.value);
        var caption := choices[0];
        choices := choices[1..];
        assert Parse(s) == Parsed(caption, choices);
        ghost var shown := d.shown;
        d := d.(shown := d.shown.(caption := caption));
        scene := scene.(dropdowns := scene.dropdowns[f := d]);
        if !(0 <= actualIndex < |choices|) {
          assert Relabel(shown, s) == None;
          return false;
        }
        d := d.(shown := d.shown.(value := choices[actualIndex]));
        d := d.(shown := d.shown.(choices := choices));
        assert Relabel(shown, s) == Some(d.shown);
        scene := scene.(dropdowns := scene.dropdowns[f := d]);
      }
    }

    /**
     * The continuation of activation once the backend is ready: take the
     * selected locale's position among the available ones (-1 when absent)
     * and apply the locale.
     */
    method SetLanguageIndex() returns (r: Outcome)
      modifies this`languageIndex, this`scene
      ensures Valid()
      ensures languageIndex == IndexOf(locales, selectedLocale)
      ensures languageIndex == -1 <==> selectedLocale !in locales
      ensures Run(scene, r) == RunPass(LocaleChange, old(scene), fields, localize, selectedLocale)
    {
      languageIndex := IndexOf(locales, selectedLocale);
      r := OnLanguageChanged(selectedLocale);
    }

    /**
     * The change-language button: advance the locale index, wrapping to 0
     * past the last locale, and select the locale there.  With no locale
     * available the index becomes 0 and selecting fails (`ok` is false).
     */
    method OnChangeLanguageButton() returns (ok: bool)
      requires Valid()
      modifies this`languageIndex, this`selectedLocale
      ensures Valid()
      ensures languageIndex == NextIndex(old(languageIndex), |locales|)
      ensures ok <==> |locales| > 0
      ensures ok ==> 0 <= languageIndex < |locales| && selectedLocale == locales[languageIndex]
      ensures !ok ==> selectedLocale == old(selectedLocale)
    {
      languageIndex := languageIndex + 1;
      if languageIndex >= |locales| {
        languageIndex := 0;
      }
      if |locales| == 0 {
        return false;
      }
      selectedLocale := locales[languageIndex];
      ok := true;
    }
  }
}
