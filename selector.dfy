/**
 * The choice-selector (dropdown) logic of the controller, on values: how a
 * localized string becomes a caption and a list of choices, which value a
 * freshly populated dropdown shows, and which value it shows after the
 * locale changes.
 */
module Selector {
  import opened Tokens

  datatype Option<T> = None | Some(value: T)

  /** The separator between the caption and the choices of a localized string. */
  const Comma: char := ','

  /** A localized selector string taken apart: the first token and the rest. */
  datatype Parsed = Parsed(caption: string, choices: seq<string>)

  /** What a dropdown shows: its caption, its list of choices and its current value. */
  datatype Dropdown = Dropdown(caption: string, choices: seq<string>, value: string)

  /** Split on commas; the first token is the caption, the others are the choices. */
  function Parse(s: string): (p: Parsed)
    ensures Comma !in p.caption
    ensures forall i :: 0 <= i < |p.choices| ==> Comma !in p.choices[i]
  {
    var tokens := Split(s, Comma);
    Parsed(tokens[0], tokens[1..])
  }

  /** The whole token list of a parse: the caption followed by the choices. */
  function TokenList(p: Parsed): seq<string>
  {
    [p.caption] + p.choices
  }

  /** Joining the caption and the choices with commas reproduces the string. */
  lemma ParseRoundTrip(s: string)
    ensures Join(TokenList(Parse(s)), Comma) == s
  {
    var tokens := Split(s, Comma);
    assert TokenList(Parse(s)) == tokens;
    JoinSplit(s, Comma);
  }

  /** A caption and choices without commas are recovered by parsing their join. */
  lemma JoinParse(caption: string, choices: seq<string>)
    requires Comma !in caption
    requires forall i :: 0 <= i < |choices| ==> Comma !in choices[i]
    ensures Parse(Join([caption] + choices, Comma)) == Parsed(caption, choices)
  {
    var ts := [caption] + choices;
    assert forall i :: 0 <= i < |ts| ==> Comma !in ts[i] by {
      forall i | 0 <= i < |ts| ensures Comma !in ts[i] {
        if i > 0 { assert ts[i] == choices[i - 1]; }
      }
    }
    SplitJoin(ts, Comma);
    assert ts[1..] == choices;
  }

  /**
   * The caption is the text before the first comma (all of `s` when it has
   * none), and there is one choice per comma.
   */
  lemma ParseLabel(s: string)
    ensures var caption := Parse(s).caption;
      && |caption| <= |s| && s[..|caption|] == caption
      && (|caption| < |s| ==> s[|caption|] == Comma)
      && (|caption| == |s| <==> Comma !in s)
    ensures |Parse(s).choices| == multiset(s)[Comma]
  {
    FirstPiece(s, Comma);
    SplitCount(s, Comma);
  }

  /**
   * List.IndexOf: the position of the first occurrence of `x` in `xs`, or -1
   * when `x` does not occur.
   */
  function IndexOf(xs: seq<string>, x: string): (r: int)
    ensures -1 <= r < |xs|
    ensures r == -1 <==> x !in xs
    ensures r >= 0 ==> xs[r] == x && forall j :: 0 <= j < r ==> xs[j] != x
  {
    if |xs| == 0 then -1
    else if xs[0] == x then 0
    else
      var k := IndexOf(xs[1..], x);
      if k == -1 then -1 else k + 1
  }

  /**
   * A dropdown populated from a localized string on activation: caption and
   * choices from the parse, value the first choice.  None when the string
   * has no choice, where the source indexes an empty list.
   */
  function Populate(s: string): (r: Option<Dropdown>)
    ensures r.Some? ==> Comma !in r.value.caption && r.value.value in r.value.choices
  {
    var p := Parse(s);
    if |p.choices| == 0 then None
    else Some(Dropdown(p.caption, p.choices, p.choices[0]))
  }

  /**
   * Population succeeds exactly when the string holds a comma; the caption is
   * then the first token and the value the second.
   */
  lemma PopulateSpec(s: string)
    ensures Populate(s).Some? <==> Comma in s
    ensures Populate(s).Some? ==>
      var d := Populate(s).value;
      var tokens := Split(s, Comma);
      && d.caption == tokens[0] && d.value == tokens[1] && d.choices == tokens[1..]
      && d.value in d.choices
  {
    SeveralPieces(s, Comma);
  }

  /**
   * The dropdown after a locale change to localized string `s`: the new
   * caption and choices from the parse, and as value the new choice at the
   * position the old value held in the old choices.  None when the old value
   * is not among the old choices or that position is past the new choices,
   * where the source indexes out of range.
   */
  function Relabel(d: Dropdown, s: string): (r: Option<Dropdown>)
    ensures r.Some? ==> d.value in d.choices && r.value.value in r.value.choices
  {
    var p := Parse(s);
    var i := IndexOf(d.choices, d.value);
    if 0 <= i < |p.choices| then Some(Dropdown(p.caption, p.choices, p.choices[i]))
    else None
  }

  /**
   * A relabel is defined exactly when the old value is an old choice whose
   * first position exists in the new choices; the new value then sits at
   * that same position.
   */
  lemma RelabelSpec(d: Dropdown, s: string)
    ensures Relabel(d, s).Some? <==>
      exists i :: 0 <= i < |d.choices| && i < |Parse(s).choices| && d.choices[i] == d.value
        && forall j :: 0 <= j < i ==> d.choices[j] != d.value
    ensures Relabel(d, s).Some? ==>
      var r := Relabel(d, s).value;
      && r.caption == Parse(s).caption && r.choices == Parse(s).choices
      && (exists i :: 0 <= i < |d.choices| && i < |r.choices| && d.choices[i] == d.value
            && r.value == r.choices[i] && forall j :: 0 <= j < i ==> d.choices[j] != d.value)
  {
    var i := IndexOf(d.choices, d.value);
    if Relabel(d, s).Some? {
      assert 0 <= i < |d.choices| && i < |Parse(s).choices| && d.choices[i] == d.value;
    }
  }

  /** Relabelling to the string the choices came from keeps the value. */
  lemma RelabelSameString(d: Dropdown, s: string)
    requires d.choices == Parse(s).choices
    requires d.value in d.choices
    ensures Relabel(d, s) == Some(Dropdown(Parse(s).caption, d.choices, d.value))
  {
  }

  /**
   * Switching from locale string `a` to `b` and back restores the value,
   * provided the dropdown's choices are those of `a`, `b` has at least as many
   * choices and no choice of `b` is repeated.
   */
  lemma RelabelRoundTrip(d: Dropdown, a: string, b: string)
    requires d.choices == Parse(a).choices && d.value in d.choices
    requires |Parse(a).choices| <= |Parse(b).choices|
    requires forall i, j :: 0 <= i < j < |Parse(b).choices| ==> Parse(b).choices[i] != Parse(b).choices[j]
    ensures Relabel(d, b).Some?
    ensures Relabel(Relabel(d, b).value, a) == Some(Dropdown(Parse(a).caption, d.choices, d.value))
  {
    var i := IndexOf(d.choices, d.value);
    var nb := Parse(b).choices;
    var e := Relabel(d, b).value;
    assert e.value == nb[i];
    var k := IndexOf(e.choices, e.value);
    assert k == i;
  }

  /**
   * A dropdown populated from `s` and relabelled to `t` shows the first
   * choice of `t`; this is defined exactly when `t` holds a comma.
   */
  lemma PopulateThenRelabel(s: string, t: string)
    requires Populate(s).Some?
    ensures Relabel(Populate(s).value, t).Some? <==> Comma in t
    ensures Relabel(Populate(s).value, t).Some? ==>
      Relabel(Populate(s).value, t).value == Populate(t).value
  {
    SeveralPieces(t, Comma);
    var d := Populate(s).value;
    assert IndexOf(d.choices, d.value) == 0;
  }
}
