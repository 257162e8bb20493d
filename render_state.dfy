/** The state a page render updates in place: the template context's `gizmos_rendered`
    variable and the render context holding the five dependency lists and the loaded flag. */
module RenderState {
  import opened Wrappers
  import opened OrderedSets
  import opened Dependencies
  import opened Markup
  import opened Text

  /** The template context, reduced to its `gizmos_rendered` variable (`None` while it is unset). */
  class TemplateContext {
    var gizmosRendered: Option<seq<string>>

    constructor (gizmosRendered: Option<seq<string>>)
      ensures this.gizmosRendered == gizmosRendered
    {
      this.gizmosRendered := gizmosRendered;
    }

    /** `_load_gizmos_rendered`: create the list when it is unset, then record the tag's gizmo name. */
    method LoadGizmosRendered(gizmoName: Option<string>, registry: Registry) returns (r: Outcome<RenderError>)
      modifies this
      ensures var prior := old(gizmosRendered).GetOr([]);
        match RecordRendered(prior, gizmoName, registry)
        case Success(s) => r == Pass && gizmosRendered == Some(s)
        case Failure(e) => r == Fail(e) && gizmosRendered == Some(prior)
    {
      if gizmosRendered.None? {
        gizmosRendered := Some([]);
      }
      if gizmoName.Some? {
        var name := gizmoName.value;
        if name !in gizmosRendered.value {
          if name !in registry {
            return Fail(InvalidGizmoName(name));
          }
          gizmosRendered := Some(gizmosRendered.value + [name]);
        }
      }
      return Pass;
    }

    /** The context scan of `load_gizmos`: each gizmo found in the context joins `gizmos_rendered`
        unless it is there already. The names are not checked against the name map here. */
    method AddContextGizmos(contextGizmos: seq<string>)
      requires gizmosRendered.Some?
      modifies this
      ensures gizmosRendered == Some(InsertAll(old(gizmosRendered).value, contextGizmos))
    {
      var i := 0;
      while i < |contextGizmos|
        invariant 0 <= i <= |contextGizmos|
        invariant gizmosRendered == Some(InsertAll(old(gizmosRendered).value, contextGizmos[..i]))
      {
        var name := contextGizmos[i];
        if name !in gizmosRendered.value {
          gizmosRendered := Some(gizmosRendered.value + [name]);
        }
        assert contextGizmos[..i + 1][..i] == contextGizmos[..i];
        i := i + 1;
      }
      assert contextGizmos[..i] == contextGizmos;
    }
  }

  /** `TethysGizmoIncludeDependency.render`: records the gizmo and renders nothing; an error
      propagates only when template debugging is on. */
  method RenderIncludeDependency(page: TemplateContext, gizmoName: Option<string>, registry: Registry, templateDebug: bool)
    returns (r: Result<string, RenderError>)
    modifies page
    ensures var prior := old(page.gizmosRendered).GetOr([]);
      match RecordRendered(prior, gizmoName, registry)
      case Success(s) => r == Success("") && page.gizmosRendered == Some(s)
      case Failure(e) => page.gizmosRendered == Some(prior) && r == (if templateDebug then Failure(e) else Success(""))
  {
    var outcome := page.LoadGizmosRendered(gizmoName, registry);
    if outcome.Fail? && templateDebug {
      return Failure(outcome.error);
    }
    return Success("");
  }

  /** The render context of one page render. */
  class RenderContext {
    var modals: seq<string>
    var css: seq<string>
    var globalCss: seq<string>
    var js: seq<string>
    var globalJs: seq<string>
    /** `gizmo_dependencies_loaded` */
    var loaded: bool

    constructor ()
      ensures Contents() == Lists([], [], [], [], []) && !loaded
    {
      modals, css, globalCss, js, globalJs := [], [], [], [], [];
      loaded := false;
    }

    function Contents(): Lists
      reads this
    {
      Lists(modals, css, globalCss, js, globalJs)
    }

    method SetList(c: Category, v: seq<string>)
      modifies this
      ensures Contents() == old(Contents()).Set(c, v) && loaded == old(loaded)
    {
      match c
      case Modals => modals := v;
      case Css => css := v;
      case GlobalCss => globalCss := v;
      case Js => js := v;
      case GlobalJs => globalJs := v;
    }

    /** `_append_dependency` on the list of category `c`: resolve the URL, append it only if absent. */
    method AppendDependency(c: Category, dependency: string, staticUrl: string -> string)
      modifies this
      ensures Contents() == old(Contents()).Set(c, Insert(old(Contents()).Get(c), ResolveUrl(dependency, staticUrl)))
      ensures loaded == old(loaded)
    {
      var url := ResolveUrl(dependency, staticUrl);
      var list := Contents().Get(c);
      if url !in list {
        SetList(c, list + [url]);
      }
    }

    /** One accessor's loop: `_append_dependency` for each entry in turn. */
    method AppendDependencies(c: Category, deps: seq<string>, staticUrl: string -> string)
      modifies this
      ensures Contents() == old(Contents()).Set(c, InsertAll(old(Contents()).Get(c), ResolveAll(deps, staticUrl)))
      ensures loaded == old(loaded)
    {
      ghost var start := Contents();
      var i := 0;
      while i < |deps|
        invariant 0 <= i <= |deps|
        invariant Contents() == start.Set(c, InsertAll(start.Get(c), ResolveAll(deps[..i], staticUrl)))
        invariant loaded == old(loaded)
      {
        AppendDependency(c, deps[i], staticUrl);
        AppendDependencyStep(start, c, deps, i, staticUrl);
        i := i + 1;
      }
      assert deps[..i] == deps;
    }

    /** The modal loop: every modal is appended, repeats included. */
    method AppendModals(ms: seq<string>)
      modifies this
      ensures Contents() == old(Contents()).(modals := old(modals) + ms)
      ensures loaded == old(loaded)
    {
      var i := 0;
      while i < |ms|
        invariant 0 <= i <= |ms|
        invariant Contents() == old(Contents()).(modals := old(modals) + ms[..i])
        invariant loaded == old(loaded)
      {
        modals := modals + [ms[i]];
        assert ms[..i + 1] == ms[..i] + [ms[i]];
        i := i + 1;
      }
      assert ms[..i] == ms;
    }

    /** The five accessor loops of one rendered gizmo. */
    method AppendGizmo(g: GizmoClass, staticUrl: string -> string)
      modifies this
      ensures Contents() == AddGizmo(old(Contents()), g, staticUrl) && loaded == old(loaded)
    {
      AppendDependencies(Css, g.gizmoCss, staticUrl);
      AppendDependencies(Js, g.gizmoJs, staticUrl);
      AppendDependencies(GlobalCss, g.vendorCss, staticUrl);
      AppendDependencies(GlobalJs, g.vendorJs, staticUrl);
      AppendModals(g.gizmoModals);
    }

    /** The loop over `gizmos_rendered`, which stops with a key error at the first name missing from the name map. */
    method AppendGizmos(names: seq<string>, registry: Registry, staticUrl: string -> string) returns (r: Outcome<RenderError>)
      modifies this
      ensures match FirstUnregistered(names, registry)
        case None => r == Pass && Contents() == AddGizmos(old(Contents()), registry, names, staticUrl)
        case Some(k) => r == Fail(UnregisteredGizmo(names[k])) && Contents() == AddGizmos(old(Contents()), registry, names[..k], staticUrl)
      ensures loaded == old(loaded)
    {
      ghost var start := Contents();
      var j := 0;
      while j < |names| && names[j] in registry
        invariant 0 <= j <= |names|
        invariant AllRegistered(names[..j], registry)
        invariant Contents() == AddGizmos(start, registry, names[..j], staticUrl)
        invariant loaded == old(loaded)
      {
        AppendGizmo(registry[names[j]], staticUrl);
        AddGizmosStep(start, registry, names, j, staticUrl);
        j := j + 1;
      }
      if j < |names| {
        FirstUnregisteredAt(names, registry, j);
        return Fail(UnregisteredGizmo(names[j]));
      }
      assert names[..j] == names;
      return Pass;
    }

    /** `load_gizmos`. The lists that are not yet present are the empty lists already, so the
        initialisation step leaves the values as they are. `contextGizmos` are the gizmo names
        of the option objects found in the template context, in the order they are found. */
    method LoadGizmos(page: TemplateContext, registry: Registry, contextGizmos: seq<string>, b: Baseline,
                      staticUrl: string -> string) returns (r: Outcome<RenderError>)
      modifies this, page
      ensures var step := Load(old(page.gizmosRendered), old(Contents()), registry, contextGizmos, b, staticUrl);
        Contents() == step.lists && page.gizmosRendered == step.rendered && r == step.outcome
      ensures loaded == (old(loaded) || r.Pass?)
    {
      if page.gizmosRendered.None? {
        return Fail(MissingGizmosRendered);
      }
      page.AddContextGizmos(contextGizmos);
      r := AppendGizmos(page.gizmosRendered.value, registry, staticUrl);
      if r.Fail? {
        return;
      }
      AppendDependencies(Css, b.css, staticUrl);
      AppendDependencies(Js, b.js, staticUrl);
      loaded := true;
    }

    /** `TethysGizmoDependenciesNode.render`: load once per render, then emit the tags of the
        requested output type joined by newlines. */
    method Render(out: Option<Category>, page: TemplateContext, registry: Registry, contextGizmos: seq<string>,
                  b: Baseline, staticUrl: string -> string, plotlyJs: string) returns (r: Result<string, RenderError>)
      modifies this, page
      ensures old(loaded) ==> r.Success? && Contents() == old(Contents()) && page.gizmosRendered == old(page.gizmosRendered)
      ensures !old(loaded) ==>
        var step := Load(old(page.gizmosRendered), old(Contents()), registry, contextGizmos, b, staticUrl);
        && Contents() == step.lists && page.gizmosRendered == step.rendered
        && (step.outcome.Fail? ==> r == Failure(step.outcome.error))
      ensures r.Success? ==> loaded && r.value == Join(Emitted(out, Contents(), plotlyJs), "\n")
      ensures r.Failure? ==> !loaded
      ensures r.Failure? <==>
        !old(loaded) && Load(old(page.gizmosRendered), old(Contents()), registry, contextGizmos, b, staticUrl).outcome.Fail?
    {
      if !loaded {
        var outcome := LoadGizmos(page, registry, contextGizmos, b, staticUrl);
        if outcome.Fail? {
          return Failure(outcome.error);
        }
      }
      ghost var l := Contents();
      var tags: seq<string> := [];
      if out == Some(Modals) {
        var more := FormatAll(Modals, modals, plotlyJs);
        tags := tags + more;
      }
      ghost var e1 := if out == Some(Modals) then FormatEach(Modals, l.modals, plotlyJs) else [];
      assert tags == e1;
      if out == Some(GlobalCss) || out.None? {
        var more := FormatAll(GlobalCss, globalCss, plotlyJs);
        tags := tags + more;
      }
      ghost var e2 := e1 + if out == Some(GlobalCss) || out.None? then FormatEach(GlobalCss, l.globalCss, plotlyJs) else [];
      assert tags == e2;
      if out == Some(Css) || out.None? {
        var more := FormatAll(Css, css, plotlyJs);
        tags := tags + more;
      }
      ghost var e3 := e2 + if out == Some(Css) || out.None? then FormatEach(Css, l.css, plotlyJs) else [];
      assert tags == e3;
      if out == Some(GlobalJs) || out.None? {
        var more := FormatAll(GlobalJs, globalJs, plotlyJs);
        tags := tags + more;
      }
      ghost var e4 := e3 + if out == Some(GlobalJs) || out.None? then FormatEach(GlobalJs, l.globalJs, plotlyJs) else [];
      assert tags == e4;
      if out == Some(Js) || out.None? {
        var more := FormatAll(Js, js, plotlyJs);
        tags := tags + more;
      }
      assert tags == e4 + if out == Some(Js) || out.None? then FormatEach(Js, l.js, plotlyJs) else [];
      assert tags == Emitted(out, l, plotlyJs);
      return Success(Join(tags, "\n"));
    }
  }
}
