/**
 * The controller's two passes over the binding fields, on values: the
 * activation pass, which binds each field to a button or a dropdown of the
 * same name, and the locale-change pass, which writes the localized string
 * of each field into the asset, its text element and its dropdown.
 *
 * Both passes visit the fields in declaration order and stop at the first
 * field whose list indexing goes out of range; what that field's step wrote
 * before it stopped stays written.
 */
module Passes {
  import opened Selector
  import opened Bindings

  /** A dropdown as a value: what it shows and the handlers on its value-changed event. */
  datatype DropdownState = DropdownState(shown: Dropdown, valueChanged: seq<string>)

  /**
   * Everything the passes read or change, by name: the binding asset's
   * field values, the click handlers of each button, each dropdown, and the
   * text of each text element.
   */
  datatype Scene = Scene(
    asset: map<string, string>,
    clicks: map<string, seq<string>>,
    dropdowns: map<string, DropdownState>,
    texts: map<string, string>)

  /**
   * How a pass ended: every field done, or stopped at the field with index
   * `at` by an out-of-range list index.
   */
  datatype Outcome = Completed | Aborted(at: nat)

  /** A pass run so far: the scene it left and how it ended. */
  datatype Run = Run(scene: Scene, outcome: Outcome)

  /** One field's step: the scene it left and whether the pass goes on. */
  datatype Step = Step(scene: Scene, ok: bool)

  datatype Pass = Activation | LocaleChange

  /**
   * Activation of field `f` with localized string `s`: a button of that name
   * gets the handler "On" + `f` on its click event and nothing else is
   * looked at; otherwise a dropdown of that name takes the caption, then the
   * first choice as value and the choices, and gets the handler on its
   * value-changed event.  A string without a choice stops the pass after the
   * caption has been written.
   */
  function BindStep(sc: Scene, f: string, s: string): (st: Step)
    ensures st.scene.asset == sc.asset && st.scene.texts == sc.texts
    ensures !st.ok ==> f !in sc.clicks && f in sc.dropdowns
  {
    if f in sc.clicks then
      Step(sc.(clicks := sc.clicks[f := sc.clicks[f] + [HandlerName(f)]]), true)
    else if f in sc.dropdowns then
      var d := sc.dropdowns[f];
      match Populate(s)
      case Some(shown) =>
        Step(sc.(dropdowns := sc.dropdowns[f := DropdownState(shown, d.valueChanged + [HandlerName(f)])]), true)
      case None =>
        Step(sc.(dropdowns := sc.dropdowns[f := d.(shown := d.shown.(caption := Parse(s).caption))]), false)
    else
      Step(sc, true)
  }

  /**
   * The locale change of field `f` with localized string `s`: the asset
   * stores `s`, a text element of that name shows it, and a dropdown of that
   * name takes the new caption, then the new choice at its old value's
   * position and the new choices.  A position that does not exist in the new
   * choices stops the pass after the caption has been written.
   */
  function RefreshStep(sc: Scene, f: string, s: string): (st: Step)
    ensures st.scene.clicks == sc.clicks
    ensures !st.ok ==> f in sc.dropdowns
  {
    var written := sc.(asset := sc.asset[f := s],
                       texts := if f in sc.texts then sc.texts[f := s] else sc.texts);
    if f !in sc.dropdowns then
      Step(written, true)
    else
      var d := sc.dropdowns[f];
      var relabelled := Relabel(d.shown, s);
      var shown := if relabelled.Some? then relabelled.value else d.shown.(caption := Parse(s).caption);
      Step(written.(dropdowns := sc.dropdowns[f := d.(shown := shown)]), relabelled.Some?)
  }

  function StepOf(pass: Pass, sc: Scene, f: string, s: string): Step
  {
    match pass
    case Activation => BindStep(sc, f, s)
    case LocaleChange => RefreshStep(sc, f, s)
  }

  /**
   * The pass over the fields `fs`, each with its string at `locale`; once
   * a step stops the pass, the later fields are not visited.
   */
  function RunPass(pass: Pass, sc: Scene, fs: seq<string>,
                   localize: (string, string) -> string, locale: string): (r: Run)
    ensures r.outcome.Aborted? ==> r.outcome.at < |fs|
    decreases |fs|
  {
    if fs == [] then Run(sc, Completed)
    else
      var prev := RunPass(pass, sc, fs[..|fs| - 1], localize, locale);
      if prev.outcome.Aborted? then prev
      else
        var f := fs[|fs| - 1];
        var st := StepOf(pass, prev.scene, f, localize(locale, f));
        Run(st.scene, if st.ok then Completed else Aborted(|fs| - 1))
  }

  /** One activation step, by case: button, dropdown or neither. */
  lemma BindStepCases(sc: Scene, f: string, s: string)
    ensures var st := BindStep(sc, f, s);
      && (f in sc.clicks ==>
            st == Step(sc.(clicks := sc.clicks[f := sc.clicks[f] + [HandlerName(f)]]), true))
      && (f !in sc.clicks && f in sc.dropdowns ==>
            var d := sc.dropdowns[f];
            && (st.ok <==> Comma in s)
            && st.scene == sc.(dropdowns := sc.dropdowns[f :=
                 if st.ok then DropdownState(Populate(s).value, d.valueChanged + [HandlerName(f)])
                 else d.(shown := d.shown.(caption := Parse(s).caption))]))
      && (f !in sc.clicks && f !in sc.dropdowns ==> st == Step(sc, true))
  {
    PopulateSpec(s);
  }

  /** One locale-change step on the dropdowns: relabel the field's dropdown, or rewrite its caption and stop. */
  lemma RefreshStepDropdowns(sc: Scene, f: string, s: string)
    ensures var st := RefreshStep(sc, f, s);
      && (f in sc.dropdowns ==>
            var d := sc.dropdowns[f];
            var relabelled := Relabel(d.shown, s);
            && st.ok == relabelled.Some?
            && st.scene.dropdowns == sc.dropdowns[f := d.(shown :=
                 if st.ok then relabelled.value else d.shown.(caption := Parse(s).caption))])
      && (f !in sc.dropdowns ==> st.ok && st.scene.dropdowns == sc.dropdowns)
  {
  }

  /** A pass that ran to the end of a prefix without stopping takes one more step. */
  lemma RunPassSnoc(pass: Pass, sc: Scene, fs: seq<string>, f: string,
                    localize: (string, string) -> string, locale: string)
    requires RunPass(pass, sc, fs, localize, locale).outcome.Completed?
    ensures var st := StepOf(pass, RunPass(pass, sc, fs, localize, locale).scene, f, localize(locale, f));
      RunPass(pass, sc, fs + [f], localize, locale)
        == Run(st.scene, if st.ok then Completed else Aborted(|fs|))
  {
    assert (fs + [f])[..|fs|] == fs;
  }

  /** A pass that stopped within a prefix of the fields stops there on all of them. */
  lemma {:induction false} AbortedStays(pass: Pass, sc: Scene, fs: seq<string>, k: nat,
                                        localize: (string, string) -> string, locale: string)
    requires k <= |fs|
    requires RunPass(pass, sc, fs[..k], localize, locale).outcome.Aborted?
    ensures RunPass(pass, sc, fs, localize, locale) == RunPass(pass, sc, fs[..k], localize, locale)
    decreases |fs| - k
  {
    if k < |fs| {
      assert fs[..|fs| - 1][..k] == fs[..k];
      AbortedStays(pass, sc, fs[..|fs| - 1], k, localize, locale);
    } else {
      assert fs[..k] == fs;
    }
  }

  /**
   * One more field of a pass: from the scene `sc` the pass has left after
   * the first `i` fields, the step of field `i` leaves `next`; the pass over
   * `i + 1` fields then completes there, or the whole pass stops there at
   * field `i`.
   */
  lemma PassAdvances(pass: Pass, start: Scene, fs: seq<string>, i: nat, sc: Scene, next: Scene, ok: bool,
                     localize: (string, string) -> string, locale: string)
    requires i < |fs|
    requires RunPass(pass, start, fs[..i], localize, locale) == Run(sc, Completed)
    requires Step(next, ok) == StepOf(pass, sc, fs[i], localize(locale, fs[i]))
    ensures ok ==> RunPass(pass, start, fs[..i + 1], localize, locale) == Run(next, Completed)
    ensures !ok ==> RunPass(pass, start, fs, localize, locale) == Run(next, Aborted(i))
  {
    assert fs[..i + 1] == fs[..i] + [fs[i]];
    RunPassSnoc(pass, start, fs[..i], fs[i], localize, locale);
    if !ok {
      AbortedStays(pass, start, fs, i + 1, localize, locale);
    }
  }

  // Activation

  /**
   * Activation stops at field `f` with string `s`: no button has that name,
   * a dropdown has, and the string holds no comma, so it gives no choice.
   */
  predicate Unpopulatable(sc: Scene, f: string, s: string)
  {
    f !in sc.clicks && f in sc.dropdowns && Comma !in s
  }

  /** Activation keeps the asset, the texts and which elements exist. */
  lemma {:induction false} ActivationKeeps(sc: Scene, fs: seq<string>,
                                           localize: (string, string) -> string, locale: string)
    ensures var out := RunPass(Activation, sc, fs, localize, locale).scene;
      && out.asset == sc.asset && out.texts == sc.texts
      && out.clicks.Keys == sc.clicks.Keys && out.dropdowns.Keys == sc.dropdowns.Keys
    decreases |fs|
  {
    if fs != [] {
      ActivationKeeps(sc, fs[..|fs| - 1], localize, locale);
    }
  }

  /**
   * Activation completes exactly when no field is unpopulatable, and
   * otherwise stops at the first unpopulatable field.
   */
  lemma {:induction false} ActivationOutcome(sc: Scene, fs: seq<string>,
                                             localize: (string, string) -> string, locale: string)
    ensures var r := RunPass(Activation, sc, fs, localize, locale).outcome;
      && (r.Completed? <==> forall i :: 0 <= i < |fs| ==> !Unpopulatable(sc, fs[i], localize(locale, fs[i])))
      && (r.Aborted? ==>
            && r.at < |fs| && Unpopulatable(sc, fs[r.at], localize(locale, fs[r.at]))
            && forall i :: 0 <= i < r.at ==> !Unpopulatable(sc, fs[i], localize(locale, fs[i])))
    decreases |fs|
  {
    if fs != [] {
      var init := fs[..|fs| - 1];
      var f := fs[|fs| - 1];
      ActivationOutcome(sc, init, localize, locale);
      var prev := RunPass(Activation, sc, init, localize, locale);
      assert forall i :: 0 <= i < |init| ==> fs[i] == init[i];
      if prev.outcome.Completed? {
        ActivationKeeps(sc, init, localize, locale);
        BindStepCases(prev.scene, f, localize(locale, f));
        assert Unpopulatable(prev.scene, f, localize(locale, f)) <==> Unpopulatable(sc, f, localize(locale, f));
        assert BindStep(prev.scene, f, localize(locale, f)).ok <==> !Unpopulatable(sc, f, localize(locale, f));
      }
    }
  }

  /**
   * A stopped pass stopped at field `k`: the pass over the fields before it
   * completed, and the step of field `k` from there did not.
   */
  lemma {:induction false} StoppedAt(pass: Pass, sc: Scene, fs: seq<string>,
                                     localize: (string, string) -> string, locale: string)
    requires RunPass(pass, sc, fs, localize, locale).outcome.Aborted?
    ensures var run := RunPass(pass, sc, fs, localize, locale);
      var k := run.outcome.at;
      && k < |fs|
      && RunPass(pass, sc, fs[..k], localize, locale).outcome.Completed?
      && var st := StepOf(pass, RunPass(pass, sc, fs[..k], localize, locale).scene, fs[k], localize(locale, fs[k]));
         !st.ok && run.scene == st.scene
    decreases |fs|
  {
    var init := fs[..|fs| - 1];
    var prev := RunPass(pass, sc, init, localize, locale);
    if prev.outcome.Aborted? {
      StoppedAt(pass, sc, init, localize, locale);
      assert init[..prev.outcome.at] == fs[..prev.outcome.at];
    }
  }

  /**
   * What an activation that completed leaves, with distinct field names:
   * each button named by a field has that field's handler added once to its
   * click event; each dropdown named by a field, without a button of that
   * name, shows the population from the field's string and has the handler
   * added once to its value-changed event; every other element is as it was.
   */
  lemma {:induction false} ActivationCompleted(sc: Scene, fs: seq<string>,
                                               localize: (string, string) -> string, locale: string)
    requires Distinct(fs)
    requires RunPass(Activation, sc, fs, localize, locale).outcome.Completed?
    ensures var out := RunPass(Activation, sc, fs, localize, locale).scene;
      && out.clicks.Keys == sc.clicks.Keys && out.dropdowns.Keys == sc.dropdowns.Keys
      && (forall n :: n in sc.clicks ==>
            out.clicks[n] == if n in fs then sc.clicks[n] + [HandlerName(n)] else sc.clicks[n])
      && (forall n :: n in sc.dropdowns ==>
            if n in fs && n !in sc.clicks then
              && Populate(localize(locale, n)) == Some(out.dropdowns[n].shown)
              && out.dropdowns[n].valueChanged == sc.dropdowns[n].valueChanged + [HandlerName(n)]
            else
              out.dropdowns[n] == sc.dropdowns[n])
    decreases |fs|
  {
    if fs != [] {
      var init := fs[..|fs| - 1];
      var f := fs[|fs| - 1];
      assert fs == init + [f];
      assert Distinct(init);
      assert f !in init;
      var prev := RunPass(Activation, sc, init, localize, locale);
      ActivationCompleted(sc, init, localize, locale);
      BindStepCases(prev.scene, f, localize(locale, f));
      var out := BindStep(prev.scene, f, localize(locale, f)).scene;
      forall n | n in sc.clicks
        ensures out.clicks[n] == if n in fs then sc.clicks[n] + [HandlerName(n)] else sc.clicks[n]
      {
        assert n in fs <==> n in init || n == f;
      }
      forall n | n in sc.dropdowns
        ensures if n in fs && n !in sc.clicks then
                  && Populate(localize(locale, n)) == Some(out.dropdowns[n].shown)
                  && out.dropdowns[n].valueChanged == sc.dropdowns[n].valueChanged + [HandlerName(n)]
                else
                  out.dropdowns[n] == sc.dropdowns[n]
      {
        assert n in fs <==> n in init || n == f;
      }
    }
  }

  /**
   * What activation leaves, with distinct field names: as for a completed
   * activation over the fields it visited, and the dropdown it stopped at
   * has only its caption rewritten.
   */
  lemma ActivationEffect(sc: Scene, fs: seq<string>,
                         localize: (string, string) -> string, locale: string)
    requires Distinct(fs)
    ensures var run := RunPass(Activation, sc, fs, localize, locale);
      var out := run.scene;
      var done := if run.outcome.Completed? then |fs| else run.outcome.at;
      && (run.outcome.Aborted? ==> run.outcome.at < |fs|)
      && out.clicks.Keys == sc.clicks.Keys && out.dropdowns.Keys == sc.dropdowns.Keys
      && (forall n :: n in sc.clicks ==>
            out.clicks[n] == if n in fs[..done] then sc.clicks[n] + [HandlerName(n)] else sc.clicks[n])
      && (forall n :: n in sc.dropdowns ==>
            if n in fs[..done] && n !in sc.clicks then
              && Populate(localize(locale, n)) == Some(out.dropdowns[n].shown)
              && out.dropdowns[n].valueChanged == sc.dropdowns[n].valueChanged + [HandlerName(n)]
            else if run.outcome.Aborted? && n == fs[run.outcome.at] then
              out.dropdowns[n]
                == sc.dropdowns[n].(shown := sc.dropdowns[n].shown.(caption := Parse(localize(locale, n)).caption))
            else
              out.dropdowns[n] == sc.dropdowns[n])
  {
    var run := RunPass(Activation, sc, fs, localize, locale);
    if run.outcome.Completed? {
      ActivationCompleted(sc, fs, localize, locale);
      assert fs[..|fs|] == fs;
    } else {
      StoppedAt(Activation, sc, fs, localize, locale);
      var k := run.outcome.at;
      DistinctPrefix(fs, k);
      ActivationCompleted(sc, fs[..k], localize, locale);
      BindStepCases(RunPass(Activation, sc, fs[..k], localize, locale).scene, fs[k], localize(locale, fs[k]));
      assert fs[k] !in fs[..k];
    }
  }

  // Locale change

  /**
   * The locale change stops at field `f` with string `s`: a dropdown has
   * that name and its value cannot be carried over to the new choices.
   */
  predicate Unrelabelable(sc: Scene, f: string, s: string)
  {
    f in sc.dropdowns && Relabel(sc.dropdowns[f].shown, s).None?
  }

  /** The locale change keeps the click handlers and which elements exist. */
  lemma {:induction false} LocaleChangeKeeps(sc: Scene, fs: seq<string>,
                                             localize: (string, string) -> string, locale: string)
    ensures var out := RunPass(LocaleChange, sc, fs, localize, locale).scene;
      && out.clicks == sc.clicks
      && out.texts.Keys == sc.texts.Keys && out.dropdowns.Keys == sc.dropdowns.Keys
    decreases |fs|
  {
    if fs != [] {
      LocaleChangeKeeps(sc, fs[..|fs| - 1], localize, locale);
    }
  }

  /** One locale-change step writes the field's string into the asset and its text element. */
  lemma RefreshStepWrites(sc: Scene, f: string, s: string)
    ensures var out := RefreshStep(sc, f, s).scene;
      && out.clicks == sc.clicks && out.asset == sc.asset[f := s]
      && out.texts == (if f in sc.texts then sc.texts[f := s] else sc.texts)
      && out.dropdowns.Keys == sc.dropdowns.Keys
  {
  }

  /**
   * A locale change that completed stores every field's localized string in
   * the asset and in the text element of that name, and changes no other
   * entry of either, nor any click handler.
   */
  lemma {:induction false} LocaleChangeWrites(sc: Scene, fs: seq<string>,
                                              localize: (string, string) -> string, locale: string)
    requires RunPass(LocaleChange, sc, fs, localize, locale).outcome.Completed?
    ensures var out := RunPass(LocaleChange, sc, fs, localize, locale).scene;
      && out.clicks == sc.clicks
      && out.texts.Keys == sc.texts.Keys && out.dropdowns.Keys == sc.dropdowns.Keys
      && (forall n :: n in out.asset <==> n in sc.asset || n in fs)
      && (forall n :: n in out.asset ==>
            out.asset[n] == if n in fs then localize(locale, n) else sc.asset[n])
      && (forall n :: n in sc.texts ==>
            out.texts[n] == if n in fs then localize(locale, n) else sc.texts[n])
    decreases |fs|
  {
    if fs != [] {
      var init := fs[..|fs| - 1];
      var f := fs[|fs| - 1];
      assert fs == init + [f];
      LocaleChangeWrites(sc, init, localize, locale);
      RefreshStepWrites(RunPass(LocaleChange, sc, init, localize, locale).scene, f, localize(locale, f));
      forall n
        ensures n in fs <==> n in init || n == f
      {
      }
    }
  }

  /**
   * A locale change that completed, with distinct field names, relabelled
   * the dropdown of every field from the state it started in, moved no
   * value-changed handler and left every other dropdown as it was; no field
   * was unrelabelable in the starting scene.
   */
  lemma {:induction false} LocaleChangeRelabels(sc: Scene, fs: seq<string>,
                                                localize: (string, string) -> string, locale: string)
    requires Distinct(fs)
    requires RunPass(LocaleChange, sc, fs, localize, locale).outcome.Completed?
    ensures var out := RunPass(LocaleChange, sc, fs, localize, locale).scene;
      && out.dropdowns.Keys == sc.dropdowns.Keys
      && (forall n :: n in sc.dropdowns ==>
            && out.dropdowns[n].valueChanged == sc.dropdowns[n].valueChanged
            && if n in fs then Relabel(sc.dropdowns[n].shown, localize(locale, n)) == Some(out.dropdowns[n].shown)
               else out.dropdowns[n].shown == sc.dropdowns[n].shown)
      && (forall i :: 0 <= i < |fs| ==> !Unrelabelable(sc, fs[i], localize(locale, fs[i])))
    decreases |fs|
  {
    if fs != [] {
      var init := fs[..|fs| - 1];
      var f := fs[|fs| - 1];
      assert fs == init + [f];
      assert Distinct(init);
      assert f !in init;
      LocaleChangeRelabels(sc, init, localize, locale);
      RefreshStepDropdowns(RunPass(LocaleChange, sc, init, localize, locale).scene, f, localize(locale, f));
      forall n
        ensures n in fs <==> n in init || n == f
      {
      }
      forall i | 0 <= i < |init|
        ensures fs[i] == init[i]
      {
      }
    }
  }

  /** A locale change that completed, with distinct field names: both of the above. */
  lemma LocaleChangeCompleted(sc: Scene, fs: seq<string>,
                              localize: (string, string) -> string, locale: string)
    requires Distinct(fs)
    requires RunPass(LocaleChange, sc, fs, localize, locale).outcome.Completed?
    ensures var out := RunPass(LocaleChange, sc, fs, localize, locale).scene;
      && out.clicks == sc.clicks
      && out.texts.Keys == sc.texts.Keys && out.dropdowns.Keys == sc.dropdowns.Keys
      && (forall n :: n in out.asset <==> n in sc.asset || n in fs)
      && (forall n :: n in out.asset ==>
            out.asset[n] == if n in fs then localize(locale, n) else sc.asset[n])
      && (forall n :: n in sc.texts ==>
            out.texts[n] == if n in fs then localize(locale, n) else sc.texts[n])
      && (forall n :: n in sc.dropdowns ==>
            && out.dropdowns[n].valueChanged == sc.dropdowns[n].valueChanged
            && if n in fs then Relabel(sc.dropdowns[n].shown, localize(locale, n)) == Some(out.dropdowns[n].shown)
               else out.dropdowns[n].shown == sc.dropdowns[n].shown)
      && (forall i :: 0 <= i < |fs| ==> !Unrelabelable(sc, fs[i], localize(locale, fs[i])))
  {
    LocaleChangeWrites(sc, fs, localize, locale);
    LocaleChangeRelabels(sc, fs, localize, locale);
  }

  /**
   * A locale change that stopped at field `k` stored the strings of the
   * fields up to and including `k` and no others.
   */
  lemma LocaleChangeStoppedWrites(sc: Scene, fs: seq<string>,
                                  localize: (string, string) -> string, locale: string)
    requires RunPass(LocaleChange, sc, fs, localize, locale).outcome.Aborted?
    ensures var run := RunPass(LocaleChange, sc, fs, localize, locale);
      var out := run.scene;
      var k := run.outcome.at;
      && k < |fs|
      && out.texts.Keys == sc.texts.Keys
      && (forall n :: n in out.asset <==> n in sc.asset || n in fs[..k + 1])
      && (forall n :: n in out.asset ==>
            out.asset[n] == if n in fs[..k + 1] then localize(locale, n) else sc.asset[n])
      && (forall n :: n in sc.texts ==>
            out.texts[n] == if n in fs[..k + 1] then localize(locale, n) else sc.texts[n])
  {
    var run := RunPass(LocaleChange, sc, fs, localize, locale);
    StoppedAt(LocaleChange, sc, fs, localize, locale);
    var k := run.outcome.at;
    var before := RunPass(LocaleChange, sc, fs[..k], localize, locale).scene;
    LocaleChangeWrites(sc, fs[..k], localize, locale);
    RefreshStepWrites(before, fs[k], localize(locale, fs[k]));
    assert fs[..k + 1] == fs[..k] + [fs[k]];
    forall n
      ensures n in fs[..k + 1] <==> n in fs[..k] || n == fs[k]
    {
    }
  }

  /**
   * What the locale change stores: the field values and the text element
   * of every field up to and including the one the pass stopped at hold its
   * localized string, and every other entry is as it was.
   */
  lemma LocaleChangeStored(sc: Scene, fs: seq<string>,
                           localize: (string, string) -> string, locale: string)
    ensures var run := RunPass(LocaleChange, sc, fs, localize, locale);
      var out := run.scene;
      var stored := if run.outcome.Completed? then |fs| else run.outcome.at + 1;
      && stored <= |fs|
      && out.clicks == sc.clicks
      && out.texts.Keys == sc.texts.Keys && out.dropdowns.Keys == sc.dropdowns.Keys
      && (forall n :: n in out.asset <==> n in sc.asset || n in fs[..stored])
      && (forall n :: n in out.asset ==>
            out.asset[n] == if n in fs[..stored] then localize(locale, n) else sc.asset[n])
      && (forall n :: n in sc.texts ==>
            out.texts[n] == if n in fs[..stored] then localize(locale, n) else sc.texts[n])
  {
    LocaleChangeKeeps(sc, fs, localize, locale);
    if RunPass(LocaleChange, sc, fs, localize, locale).outcome.Completed? {
      LocaleChangeWrites(sc, fs, localize, locale);
      assert fs[..|fs|] == fs;
    } else {
      LocaleChangeStoppedWrites(sc, fs, localize, locale);
    }
  }

  /**
   * What the locale change does to the dropdowns, with distinct field
   * names: the dropdown of every field before the one the pass stopped at
   * is relabelled from its old state, the dropdown it stopped at has only its
   * caption rewritten, no value-changed handler moves, and every other
   * dropdown is as it was.
   */
  lemma LocaleChangeDropdowns(sc: Scene, fs: seq<string>,
                              localize: (string, string) -> string, locale: string)
    requires Distinct(fs)
    ensures var run := RunPass(LocaleChange, sc, fs, localize, locale);
      var out := run.scene;
      var relabelled := if run.outcome.Completed? then |fs| else run.outcome.at;
      && (run.outcome.Aborted? ==> run.outcome.at < |fs|)
      && out.dropdowns.Keys == sc.dropdowns.Keys
      && (forall n :: n in sc.dropdowns ==>
            && out.dropdowns[n].valueChanged == sc.dropdowns[n].valueChanged
            && if n in fs[..relabelled] then
                 Relabel(sc.dropdowns[n].shown, localize(locale, n)) == Some(out.dropdowns[n].shown)
               else if run.outcome.Aborted? && n == fs[run.outcome.at] then
                 out.dropdowns[n].shown == sc.dropdowns[n].shown.(caption := Parse(localize(locale, n)).caption)
               else
                 out.dropdowns[n].shown == sc.dropdowns[n].shown)
  {
    var run := RunPass(LocaleChange, sc, fs, localize, locale);
    if run.outcome.Completed? {
      LocaleChangeRelabels(sc, fs, localize, locale);
      assert fs[..|fs|] == fs;
    } else {
      StoppedAt(LocaleChange, sc, fs, localize, locale);
      var k := run.outcome.at;
      DistinctPrefix(fs, k);
      LocaleChangeRelabels(sc, fs[..k], localize, locale);
      RefreshStepDropdowns(RunPass(LocaleChange, sc, fs[..k], localize, locale).scene, fs[k], localize(locale, fs[k]));
      assert fs[k] !in fs[..k];
    }
  }

  /**
   * With distinct field names the locale change completes exactly when no
   * field is unrelabelable in the scene it started from, and otherwise stops
   * at the first such field.
   */
  lemma LocaleChangeOutcome(sc: Scene, fs: seq<string>,
                            localize: (string, string) -> string, locale: string)
    requires Distinct(fs)
    ensures var r := RunPass(LocaleChange, sc, fs, localize, locale).outcome;
      && (r.Completed? <==> forall i :: 0 <= i < |fs| ==> !Unrelabelable(sc, fs[i], localize(locale, fs[i])))
      && (r.Aborted? ==>
            && r.at < |fs| && Unrelabelable(sc, fs[r.at], localize(locale, fs[r.at]))
            && forall i :: 0 <= i < r.at ==> !Unrelabelable(sc, fs[i], localize(locale, fs[i])))
  {
    var run := RunPass(LocaleChange, sc, fs, localize, locale);
    if run.outcome.Completed? {
      LocaleChangeCompleted(sc, fs, localize, locale);
    } else {
      StoppedAt(LocaleChange, sc, fs, localize, locale);
      var k := run.outcome.at;
      DistinctPrefix(fs, k);
      LocaleChangeCompleted(sc, fs[..k], localize, locale);
      RefreshStepDropdowns(RunPass(LocaleChange, sc, fs[..k], localize, locale).scene, fs[k], localize(locale, fs[k]));
      assert fs[k] !in fs[..k];
      forall i | 0 <= i < k
        ensures !Unrelabelable(sc, fs[i], localize(locale, fs[i]))
      {
        assert fs[..k][i] == fs[i];
      }
    }
  }
}
