/** How `TethysGizmoDependenciesNode.render` turns the per-render lists into HTML tags. */
module Markup {
  import opened Wrappers
  import opened Text
  import opened Dependencies

  /** A global JS dependency whose name ends in this is replaced by plotly's inlined source. */
  const PlotlyLoader: string := "plotly-load_from_python.js"

  function LinkTag(url: string): string {
    "<link href=\"" + url + "\" rel=\"stylesheet\" />"
  }

  function ScriptTag(url: string): string {
    "<script src=\"" + url + "\" type=\"text/javascript\"></script>"
  }

  function InlineScript(code: string): string {
    "<script type=\"text/javascript\">" + code + "</script>"
  }

  /** The markup for one entry of the list of category `c`; `plotlyJs` is what `get_plotlyjs()` returns. */
  function Format(c: Category, dependency: string, plotlyJs: string): string {
    match c
    case Modals => dependency
    case Css => LinkTag(dependency)
    case GlobalCss => LinkTag(dependency)
    case Js => ScriptTag(dependency)
    case GlobalJs => if EndsWith(dependency, PlotlyLoader) then InlineScript(plotlyJs) else ScriptTag(dependency)
  }

  function FormatEach(c: Category, deps: seq<string>, plotlyJs: string): seq<string> {
    seq(|deps|, i requires 0 <= i < |deps| => Format(c, deps[i], plotlyJs))
  }

  /** The tags emitted for output type `out` (`None` when the tag names none), in emission order. */
  function Emitted(out: Option<Category>, l: Lists, plotlyJs: string): seq<string> {
    (if out == Some(Modals) then FormatEach(Modals, l.modals, plotlyJs) else [])
    + (if out == Some(GlobalCss) || out.None? then FormatEach(GlobalCss, l.globalCss, plotlyJs) else [])
    + (if out == Some(Css) || out.None? then FormatEach(Css, l.css, plotlyJs) else [])
    + (if out == Some(GlobalJs) || out.None? then FormatEach(GlobalJs, l.globalJs, plotlyJs) else [])
    + (if out == Some(Js) || out.None? then FormatEach(Js, l.js, plotlyJs) else [])
  }

  predicate IsStylesheetLink(t: string) {
    StartsWith(t, "<link href=\"") && EndsWith(t, "\" rel=\"stylesheet\" />")
  }

  predicate IsScriptTag(t: string) {
    StartsWith(t, "<script ") && EndsWith(t, "</script>")
  }

  lemma LinkTagShape(url: string)
    ensures IsStylesheetLink(LinkTag(url)) && !IsScriptTag(LinkTag(url))
  {
    var t := LinkTag(url);
    assert t[..|"<link href=\""|] == "<link href=\"";
    assert t[|t| - |"\" rel=\"stylesheet\" />"|..] == "\" rel=\"stylesheet\" />";
    assert t[1] == 'l';
  }

  lemma ScriptTagShape(url: string)
    ensures IsScriptTag(ScriptTag(url)) && !IsStylesheetLink(ScriptTag(url))
  {
    var t := ScriptTag(url);
    assert t[..|"<script "|] == "<script ";
    assert t[|t| - |"</script>"|..] == "</script>";
    assert t[1] == 's';
  }

  lemma InlineScriptShape(code: string)
    ensures IsScriptTag(InlineScript(code)) && !IsStylesheetLink(InlineScript(code))
  {
    var t := InlineScript(code);
    assert t[..|"<script "|] == "<script ";
    assert t[|t| - |"</script>"|..] == "</script>";
    assert t[1] == 's';
  }

  /** With a single output type, exactly that category's list is emitted, one tag per entry. */
  lemma EmittedSingle(c: Category, l: Lists, plotlyJs: string)
    ensures Emitted(Some(c), l, plotlyJs) == FormatEach(c, l.Get(c), plotlyJs)
    ensures |Emitted(Some(c), l, plotlyJs)| == |l.Get(c)|
  {
  }

  /** `css` and `global_css` emit only stylesheet links, never a script tag. */
  lemma CssEmitsOnlyLinks(c: Category, l: Lists, plotlyJs: string)
    requires c == Css || c == GlobalCss
    ensures forall t :: t in Emitted(Some(c), l, plotlyJs) ==> IsStylesheetLink(t) && !IsScriptTag(t)
  {
    forall t | t in Emitted(Some(c), l, plotlyJs) ensures IsStylesheetLink(t) && !IsScriptTag(t) {
      EmittedSingle(c, l, plotlyJs);
      var i :| 0 <= i < |l.Get(c)| && t == FormatEach(c, l.Get(c), plotlyJs)[i];
      LinkTagShape(l.Get(c)[i]);
    }
  }

  /** `js` and `global_js` emit only script tags, never a stylesheet link. */
  lemma JsEmitsOnlyScripts(c: Category, l: Lists, plotlyJs: string)
    requires c == Js || c == GlobalJs
    ensures forall t :: t in Emitted(Some(c), l, plotlyJs) ==> IsScriptTag(t) && !IsStylesheetLink(t)
  {
    forall t | t in Emitted(Some(c), l, plotlyJs) ensures IsScriptTag(t) && !IsStylesheetLink(t) {
      EmittedSingle(c, l, plotlyJs);
      var i :| 0 <= i < |l.Get(c)| && t == FormatEach(c, l.Get(c), plotlyJs)[i];
      ScriptTagShape(l.Get(c)[i]);
      InlineScriptShape(plotlyJs);
    }
  }

  /** `modals` emits the modal fragments verbatim. */
  lemma ModalsVerbatim(l: Lists, plotlyJs: string)
    ensures Emitted(Some(Modals), l, plotlyJs) == l.modals
  {
  }

  /** In the global JS output the plotly loader is inlined and every other entry is linked by `src`. */
  lemma GlobalJsPlotlyInlined(l: Lists, plotlyJs: string, i: int)
    requires 0 <= i < |l.globalJs|
    ensures var t := Emitted(Some(GlobalJs), l, plotlyJs)[i];
      && (EndsWith(l.globalJs[i], PlotlyLoader) ==> t == InlineScript(plotlyJs))
      && (!EndsWith(l.globalJs[i], PlotlyLoader) ==> t == ScriptTag(l.globalJs[i]))
  {
  }

  /** With no output type, the global CSS, CSS, global JS and JS outputs follow one another, and modals are not emitted. */
  lemma EmittedAll(l: Lists, plotlyJs: string)
    ensures Emitted(None, l, plotlyJs) ==
      Emitted(Some(GlobalCss), l, plotlyJs) + Emitted(Some(Css), l, plotlyJs)
      + Emitted(Some(GlobalJs), l, plotlyJs) + Emitted(Some(Js), l, plotlyJs)
    ensures forall m :: Emitted(None, l.(modals := m), plotlyJs) == Emitted(None, l, plotlyJs)
  {
  }

  /** The rendered string of the unfiltered tag is the non-empty single-type outputs joined by newlines. */
  lemma RenderedAll(l: Lists, plotlyJs: string)
    ensures var parts := [Emitted(Some(GlobalCss), l, plotlyJs), Emitted(Some(Css), l, plotlyJs),
                          Emitted(Some(GlobalJs), l, plotlyJs), Emitted(Some(Js), l, plotlyJs)];
      Join(Emitted(None, l, plotlyJs), "\n") == Join(NonEmptyJoins(parts, "\n"), "\n")
  {
    var a, b, c, d := Emitted(Some(GlobalCss), l, plotlyJs), Emitted(Some(Css), l, plotlyJs),
                      Emitted(Some(GlobalJs), l, plotlyJs), Emitted(Some(Js), l, plotlyJs);
    EmittedAll(l, plotlyJs);
    JoinNonEmpty([a, b, c, d], "\n");
    Flatten4(a, b, c, d);
  }

  function Flatten(parts: seq<seq<string>>): seq<string>
    decreases |parts|
  {
    if parts == [] then [] else parts[0] + Flatten(parts[1..])
  }

  lemma Flatten4(a: seq<string>, b: seq<string>, c: seq<string>, d: seq<string>)
    ensures Flatten([a, b, c, d]) == a + b + c + d
  {
    assert [a, b, c, d][1..] == [b, c, d];
    assert [b, c, d][1..] == [c, d];
    assert [c, d][1..] == [d];
    assert [d][1..] == [];
    assert Flatten([d]) == d + [] == d;
    assert Flatten([c, d]) == c + d;
    assert Flatten([b, c, d]) == b + (c + d);
    assert a + (b + (c + d)) == a + b + c + d;
  }

  /** The joins of the non-empty parts, in order. */
  function NonEmptyJoins(parts: seq<seq<string>>, sep: string): seq<string>
    decreases |parts|
  {
    if parts == [] then []
    else (if parts[0] == [] then [] else [Join(parts[0], sep)]) + NonEmptyJoins(parts[1..], sep)
  }

  /** Joining the concatenation of several lists is joining their non-empty joins. */
  lemma {:induction false} JoinNonEmpty(parts: seq<seq<string>>, sep: string)
    ensures Join(Flatten(parts), sep) == Join(NonEmptyJoins(parts, sep), sep)
    decreases |parts|
  {
    if parts != [] {
      JoinNonEmpty(parts[1..], sep);
      JoinAppend(parts[0], Flatten(parts[1..]), sep);
      var rest := NonEmptyJoins(parts[1..], sep);
      if parts[0] != [] {
        JoinAppend([Join(parts[0], sep)], rest, sep);
        FlattenEmpty(parts[1..], sep);
      } else {
        assert [] + rest == rest;
      }
    }
  }

  lemma {:induction false} FlattenEmpty(parts: seq<seq<string>>, sep: string)
    ensures Flatten(parts) == [] <==> NonEmptyJoins(parts, sep) == []
    decreases |parts|
  {
    if parts != [] {
      FlattenEmpty(parts[1..], sep);
    }
  }

  /** Builds the tags of one category's list, one per entry, in order. */
  method FormatAll(c: Category, deps: seq<string>, plotlyJs: string) returns (tags: seq<string>)
    ensures tags == FormatEach(c, deps, plotlyJs)
  {
    tags := [];
    var i := 0;
    while i < |deps|
      invariant 0 <= i <= |deps|
      invariant tags == FormatEach(c, deps[..i], plotlyJs)
    {
      tags := tags + [Format(c, deps[i], plotlyJs)];
      i := i + 1;
    }
    assert deps[..i] == deps;
  }
}
