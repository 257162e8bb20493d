/** The gizmo registry and the per-render dependency lists, with the value-level
    specification of how `load_gizmos` and `_load_gizmos_rendered` change them. */
module Dependencies {
  import opened Wrappers
  import opened Text
  import opened OrderedSets

  /** A dependency path containing this is an external URL and is kept verbatim. */
  const ExternalIndicator: string := "://"

  /** The five output types; each names one per-render list. */
  datatype Category = Modals | Css | GlobalCss | Js | GlobalJs

  /** The output type as it is written in a template. */
  function Name(c: Category): string {
    match c
    case Modals => "modals"
    case Css => "css"
    case GlobalCss => "global_css"
    case Js => "js"
    case GlobalJs => "global_js"
  }

  /** Membership in the tuple of valid output types. */
  function FromName(s: string): (r: Option<Category>)
    ensures r.Some? ==> Name(r.value) == s
    ensures r.None? ==> forall c :: Name(c) != s
  {
    if s == "modals" then Some(Modals)
    else if s == "css" then Some(Css)
    else if s == "global_css" then Some(GlobalCss)
    else if s == "js" then Some(Js)
    else if s == "global_js" then Some(GlobalJs)
    else None
  }

  lemma FromNameName(c: Category)
    ensures FromName(Name(c)) == Some(c)
  {
    match c
    case Modals =>
    case Css =>
    case GlobalCss =>
    case Js =>
    case GlobalJs =>
  }

  /** A registered gizmo class, given by what its five dependency accessors return. */
  datatype GizmoClass = GizmoClass(
    gizmoCss: seq<string>,
    gizmoJs: seq<string>,
    vendorCss: seq<string>,
    vendorJs: seq<string>,
    gizmoModals: seq<string>)
  {
    /** The accessor whose entries go to the list of category `c`. */
    function Source(c: Category): seq<string> {
      match c
      case Css => gizmoCss
      case Js => gizmoJs
      case GlobalCss => vendorCss
      case GlobalJs => vendorJs
      case Modals => gizmoModals
    }
  }

  /** The name map from gizmo names to gizmo classes, as built at import time. */
  type Registry = map<string, GizmoClass>

  /** The framework's own dependencies, appended after every gizmo's. */
  datatype Baseline = Baseline(css: seq<string>, js: seq<string>)

  /** The five per-render lists. A list that is not yet in the render context is the empty list. */
  datatype Lists = Lists(
    modals: seq<string>,
    css: seq<string>,
    globalCss: seq<string>,
    js: seq<string>,
    globalJs: seq<string>)
  {
    function Get(c: Category): seq<string> {
      match c
      case Modals => modals
      case Css => css
      case GlobalCss => globalCss
      case Js => js
      case GlobalJs => globalJs
    }

    function Set(c: Category, v: seq<string>): (r: Lists)
      ensures r.Get(c) == v
      ensures forall d :: d != c ==> r.Get(d) == Get(d)
    {
      match c
      case Modals => this.(modals := v)
      case Css => this.(css := v)
      case GlobalCss => this.(globalCss := v)
      case Js => this.(js := v)
      case GlobalJs => this.(globalJs := v)
    }

    /** The four asset lists (all but the modals) hold no URL twice. */
    predicate AssetsDistinct() {
      NoDuplicates(css) && NoDuplicates(globalCss) && NoDuplicates(js) && NoDuplicates(globalJs)
    }
  }

  /** The URL a dependency stands for: external ones verbatim, others through the static-file resolver. */
  function ResolveUrl(dependency: string, staticUrl: string -> string): string {
    if Contains(dependency, ExternalIndicator) then dependency else staticUrl(dependency)
  }

  function ResolveAll(deps: seq<string>, staticUrl: string -> string): seq<string> {
    seq(|deps|, i requires 0 <= i < |deps| => ResolveUrl(deps[i], staticUrl))
  }

  /** One more `_append_dependency` on list `c` extends the inserts by the next dependency. */
  lemma AppendDependencyStep(l: Lists, c: Category, deps: seq<string>, i: nat, staticUrl: string -> string)
    requires i < |deps|
    ensures var done := l.Set(c, InsertAll(l.Get(c), ResolveAll(deps[..i], staticUrl)));
      done.Set(c, Insert(done.Get(c), ResolveUrl(deps[i], staticUrl)))
        == l.Set(c, InsertAll(l.Get(c), ResolveAll(deps[..i + 1], staticUrl)))
  {
    var next := ResolveAll(deps[..i + 1], staticUrl);
    assert next[..i] == ResolveAll(deps[..i], staticUrl) && next[i] == ResolveUrl(deps[i], staticUrl);
  }

  /** The lists after one gizmo's dependencies are appended. */
  function AddGizmo(l: Lists, g: GizmoClass, staticUrl: string -> string): Lists {
    Lists(
      l.modals + g.gizmoModals,
      InsertAll(l.css, ResolveAll(g.gizmoCss, staticUrl)),
      InsertAll(l.globalCss, ResolveAll(g.vendorCss, staticUrl)),
      InsertAll(l.js, ResolveAll(g.gizmoJs, staticUrl)),
      InsertAll(l.globalJs, ResolveAll(g.vendorJs, staticUrl)))
  }

  predicate AllRegistered(names: seq<string>, registry: Registry) {
    forall i :: 0 <= i < |names| ==> names[i] in registry
  }

  /** The lists after the dependencies of each named gizmo are appended, in order. */
  function AddGizmos(l: Lists, registry: Registry, names: seq<string>, staticUrl: string -> string): Lists
    requires AllRegistered(names, registry)
    decreases |names|
  {
    if names == [] then l
    else AddGizmo(AddGizmos(l, registry, names[..|names| - 1], staticUrl), registry[names[|names| - 1]], staticUrl)
  }

  /** The lists after the framework's baseline CSS and JS are appended. */
  function AddBaseline(l: Lists, b: Baseline, staticUrl: string -> string): Lists {
    l.(css := InsertAll(l.css, ResolveAll(b.css, staticUrl)), js := InsertAll(l.js, ResolveAll(b.js, staticUrl)))
  }

  lemma AddGizmosStep(l: Lists, registry: Registry, names: seq<string>, j: nat, staticUrl: string -> string)
    requires j < |names| && AllRegistered(names[..j], registry) && names[j] in registry
    ensures AllRegistered(names[..j + 1], registry)
    ensures AddGizmos(l, registry, names[..j + 1], staticUrl)
         == AddGizmo(AddGizmos(l, registry, names[..j], staticUrl), registry[names[j]], staticUrl)
  {
    assert names[..j + 1][..j] == names[..j];
    assert names[..j + 1][j] == names[j];
  }

  /** Everything the named gizmos contribute to category `c`, resolved for asset lists, in order. */
  function Collected(registry: Registry, names: seq<string>, c: Category, staticUrl: string -> string): seq<string>
    requires AllRegistered(names, registry)
    decreases |names|
  {
    if names == [] then []
    else
      var g := registry[names[|names| - 1]];
      Collected(registry, names[..|names| - 1], c, staticUrl)
        + (if c == Modals then g.gizmoModals else ResolveAll(g.Source(c), staticUrl))
  }

  /** The index of the first name missing from the registry, if there is one. */
  function FirstUnregistered(names: seq<string>, registry: Registry): (r: Option<nat>)
    ensures r.None? <==> AllRegistered(names, registry)
    ensures r.Some? ==> r.value < |names| && names[r.value] !in registry && AllRegistered(names[..r.value], registry)
    decreases |names|
  {
    if names == [] then None
    else if names[0] !in registry then Some(0)
    else
      match FirstUnregistered(names[1..], registry)
      case None => None
      case Some(k) => Some(k + 1)
  }

  /** A name missing from the map after only registered ones is the first missing name. */
  lemma {:induction false} FirstUnregisteredAt(names: seq<string>, registry: Registry, j: nat)
    requires j < |names| && AllRegistered(names[..j], registry) && names[j] !in registry
    ensures FirstUnregistered(names, registry) == Some(j)
    decreases j
  {
    if j > 0 {
      assert names[..j][0] == names[0];
      assert names[1..][..j - 1] == names[1..j];
      FirstUnregisteredAt(names[1..], registry, j - 1);
    }
  }

  /** The errors a render can raise. */
  datatype RenderError =
    | InvalidGizmoName(name: string)   // unknown name in a gizmo tag (a template syntax error)
    | MissingGizmosRendered            // no `gizmos_rendered` variable in the context (a key error)
    | UnregisteredGizmo(name: string)  // rendered name missing from the name map (a key error)

  /** The state after `load_gizmos`: the `gizmos_rendered` variable, the lists and the outcome. */
  datatype LoadStep = LoadStep(rendered: Option<seq<string>>, lists: Lists, outcome: Outcome<RenderError>)

  /** `load_gizmos`: merge the gizmos found in the context into `gizmos_rendered`, append
      each rendered gizmo's dependencies, then the baseline. A failure stops part way. */
  function Load(rendered: Option<seq<string>>, l: Lists, registry: Registry, contextGizmos: seq<string>,
                b: Baseline, staticUrl: string -> string): (r: LoadStep)
    ensures r.outcome.Fail? <==> rendered.None? || !AllRegistered(InsertAll(rendered.value, contextGizmos), registry)
    ensures rendered.None? ==> r.rendered.None? && r.lists == l && r.outcome == Fail(MissingGizmosRendered)
    ensures rendered.Some? ==> r.rendered == Some(InsertAll(rendered.value, contextGizmos))
  {
    match rendered
    case None => LoadStep(None, l, Fail(MissingGizmosRendered))
    case Some(prior) =>
      var names := InsertAll(prior, contextGizmos);
      match FirstUnregistered(names, registry)
      case Some(k) => LoadStep(Some(names), AddGizmos(l, registry, names[..k], staticUrl), Fail(UnregisteredGizmo(names[k])))
      case None => LoadStep(Some(names), AddBaseline(AddGizmos(l, registry, names, staticUrl), b, staticUrl), Pass)
  }

  /** `_load_gizmos_rendered` on the list `prior`: record a gizmo name once, rejecting unknown new names. */
  function RecordRendered(prior: seq<string>, name: Option<string>, registry: Registry): (r: Result<seq<string>, RenderError>)
    ensures r.Failure? <==> name.Some? && name.value !in prior && name.value !in registry
    ensures r.Failure? ==> r.error == InvalidGizmoName(name.value)
    ensures r.Success? ==> |prior| <= |r.value| <= |prior| + 1 && r.value[..|prior|] == prior
    ensures r.Success? && name.Some? ==> name.value in r.value
    ensures r.Success? && (name.None? || name.value in prior) ==> r.value == prior
  {
    match name
    case None => Success(prior)
    case Some(n) =>
      if n in prior then Success(prior)
      else if n !in registry then Failure(InvalidGizmoName(n))
      else Success(prior + [n])
  }

  /** Recording keeps `gizmos_rendered` duplicate-free and made of registered names. */
  lemma RecordRenderedKeepsInvariant(prior: seq<string>, name: Option<string>, registry: Registry)
    requires NoDuplicates(prior) && AllRegistered(prior, registry)
    ensures RecordRendered(prior, name, registry).Success? ==>
      var s := RecordRendered(prior, name, registry).value;
      NoDuplicates(s) && AllRegistered(s, registry)
  {
  }

  /** Recording the same name twice is recording it once. */
  lemma RecordRenderedTwice(prior: seq<string>, name: Option<string>, registry: Registry)
    requires RecordRendered(prior, name, registry).Success?
    ensures RecordRendered(RecordRendered(prior, name, registry).value, name, registry) == RecordRendered(prior, name, registry)
  {
  }

  /** After the gizmos are added, each asset list is the old list with the collected URLs inserted. */
  lemma {:induction false} AddGizmosAsset(l: Lists, registry: Registry, names: seq<string>, c: Category, staticUrl: string -> string)
    requires AllRegistered(names, registry) && c != Modals
    ensures AddGizmos(l, registry, names, staticUrl).Get(c) == InsertAll(l.Get(c), Collected(registry, names, c, staticUrl))
    decreases |names|
  {
    if names == [] {
    } else {
      var init := names[..|names| - 1];
      var g := registry[names[|names| - 1]];
      AddGizmosAsset(l, registry, init, c, staticUrl);
      InsertAllAppend(l.Get(c), Collected(registry, init, c, staticUrl), ResolveAll(g.Source(c), staticUrl));
    }
  }

  /** After the gizmos are added, the modal list is the old one followed by every gizmo's modals, repeats included. */
  lemma {:induction false} AddGizmosModals(l: Lists, registry: Registry, names: seq<string>, staticUrl: string -> string)
    requires AllRegistered(names, registry)
    ensures AddGizmos(l, registry, names, staticUrl).modals == l.modals + Collected(registry, names, Modals, staticUrl)
    decreases |names|
  {
    if names != [] {
      var init := names[..|names| - 1];
      var g := registry[names[|names| - 1]];
      var mid := AddGizmos(l, registry, init, staticUrl);
      AddGizmosModals(l, registry, init, staticUrl);
      assert AddGizmos(l, registry, names, staticUrl).modals == mid.modals + g.gizmoModals;
      assert Collected(registry, names, Modals, staticUrl) == Collected(registry, init, Modals, staticUrl) + g.gizmoModals;
      assert l.modals + (Collected(registry, init, Modals, staticUrl) + g.gizmoModals)
          == (l.modals + Collected(registry, init, Modals, staticUrl)) + g.gizmoModals;
    } else {
      assert l.modals + [] == l.modals;
    }
  }

  /** Adding gizmos keeps every list's old entries, unchanged and in place. */
  lemma AddGizmosKeepsPrefix(l: Lists, registry: Registry, names: seq<string>, c: Category, staticUrl: string -> string)
    requires AllRegistered(names, registry)
    ensures var after := AddGizmos(l, registry, names, staticUrl).Get(c);
      |l.Get(c)| <= |after| && after[..|l.Get(c)|] == l.Get(c)
  {
    if c == Modals {
      AddGizmosModals(l, registry, names, staticUrl);
    } else {
      AddGizmosAsset(l, registry, names, c, staticUrl);
      InsertAllPrefix(l.Get(c), Collected(registry, names, c, staticUrl));
    }
  }

  /** Every list keeps its old entries, unchanged and in place, whatever the outcome. */
  lemma LoadKeepsPrefix(rendered: Option<seq<string>>, l: Lists, registry: Registry, contextGizmos: seq<string>,
                        b: Baseline, staticUrl: string -> string, c: Category)
    ensures var after := Load(rendered, l, registry, contextGizmos, b, staticUrl).lists.Get(c);
      |l.Get(c)| <= |after| && after[..|l.Get(c)|] == l.Get(c)
  {
    if rendered.Some? {
      var names := InsertAll(rendered.value, contextGizmos);
      match FirstUnregistered(names, registry)
      case Some(k) =>
        AddGizmosKeepsPrefix(l, registry, names[..k], c, staticUrl);
      case None =>
        var mid := AddGizmos(l, registry, names, staticUrl);
        AddGizmosKeepsPrefix(l, registry, names, c, staticUrl);
        var after := AddBaseline(mid, b, staticUrl);
        if c == Css {
          InsertAllPrefix(mid.css, ResolveAll(b.css, staticUrl));
        } else if c == Js {
          InsertAllPrefix(mid.js, ResolveAll(b.js, staticUrl));
        } else {
          assert after.Get(c) == mid.Get(c);
        }
    }
  }

  /** A load never puts a URL twice into an asset list that had no repeats. */
  lemma LoadKeepsDistinct(rendered: Option<seq<string>>, l: Lists, registry: Registry, contextGizmos: seq<string>,
                          b: Baseline, staticUrl: string -> string)
    requires l.AssetsDistinct()
    ensures Load(rendered, l, registry, contextGizmos, b, staticUrl).lists.AssetsDistinct()
  {
    if rendered.Some? {
      var names := InsertAll(rendered.value, contextGizmos);
      var done := match FirstUnregistered(names, registry) case None => names case Some(k) => names[..k];
      var mid := AddGizmos(l, registry, done, staticUrl);
      forall c | c != Modals ensures NoDuplicates(mid.Get(c)) {
        AddGizmosAsset(l, registry, done, c, staticUrl);
        InsertAllNoDuplicates(l.Get(c), Collected(registry, done, c, staticUrl));
      }
      assert mid.AssetsDistinct() by {
        assert mid.Get(Css) == mid.css && mid.Get(Js) == mid.js;
        assert mid.Get(GlobalCss) == mid.globalCss && mid.Get(GlobalJs) == mid.globalJs;
      }
      InsertAllNoDuplicates(mid.css, ResolveAll(b.css, staticUrl));
      InsertAllNoDuplicates(mid.js, ResolveAll(b.js, staticUrl));
    }
  }

  /** On success the modal list grows by every rendered gizmo's modals, with no de-duplication. */
  lemma LoadModals(rendered: Option<seq<string>>, l: Lists, registry: Registry, contextGizmos: seq<string>,
                   b: Baseline, staticUrl: string -> string)
    requires Load(rendered, l, registry, contextGizmos, b, staticUrl).outcome.Pass?
    ensures var names := InsertAll(rendered.value, contextGizmos);
      AllRegistered(names, registry) &&
      Load(rendered, l, registry, contextGizmos, b, staticUrl).lists.modals == l.modals + Collected(registry, names, Modals, staticUrl)
  {
    AddGizmosModals(l, registry, InsertAll(rendered.value, contextGizmos), staticUrl);
  }

  /** On success the baseline URLs come last in the css and js lists: the per-gizmo list is a
      prefix, everything after it is a baseline URL not already present, and every baseline URL
      is in the list. The global lists get no baseline. */
  lemma LoadBaselineLast(rendered: Option<seq<string>>, l: Lists, registry: Registry, contextGizmos: seq<string>,
                         b: Baseline, staticUrl: string -> string, c: Category)
    requires Load(rendered, l, registry, contextGizmos, b, staticUrl).outcome.Pass?
    requires c == Css || c == Js
    ensures var names := InsertAll(rendered.value, contextGizmos);
      var base := if c == Css then ResolveAll(b.css, staticUrl) else ResolveAll(b.js, staticUrl);
      AllRegistered(names, registry) &&
      var mid := AddGizmos(l, registry, names, staticUrl).Get(c);
      var after := Load(rendered, l, registry, contextGizmos, b, staticUrl).lists.Get(c);
      && |mid| <= |after| && after[..|mid|] == mid
      && (forall k :: |mid| <= k < |after| ==> after[k] in base && after[k] !in mid)
      && (forall u :: u in base ==> u in after)
  {
    var names := InsertAll(rendered.value, contextGizmos);
    var base := if c == Css then ResolveAll(b.css, staticUrl) else ResolveAll(b.js, staticUrl);
    var mid := AddGizmos(l, registry, names, staticUrl).Get(c);
    InsertAllPrefix(mid, base);
    InsertAllSuffix(mid, base);
    InsertAllMembers(mid, base);
  }

  /** On success the global lists hold the old entries followed only by the gizmos' vendor URLs. */
  lemma LoadGlobalLists(rendered: Option<seq<string>>, l: Lists, registry: Registry, contextGizmos: seq<string>,
                        b: Baseline, staticUrl: string -> string, c: Category)
    requires Load(rendered, l, registry, contextGizmos, b, staticUrl).outcome.Pass?
    requires c == GlobalCss || c == GlobalJs
    ensures var names := InsertAll(rendered.value, contextGizmos);
      AllRegistered(names, registry) &&
      Load(rendered, l, registry, contextGizmos, b, staticUrl).lists.Get(c) == InsertAll(l.Get(c), Collected(registry, names, c, staticUrl))
  {
    AddGizmosAsset(l, registry, InsertAll(rendered.value, contextGizmos), c, staticUrl);
  }

  /** Loading a second time on the lists of a successful load keeps all four asset lists and
      `gizmos_rendered` as they are, but appends every modal again: what the loaded flag prevents. */
  lemma LoadAgain(rendered: Option<seq<string>>, l: Lists, registry: Registry, contextGizmos: seq<string>,
                  b: Baseline, staticUrl: string -> string)
    requires Load(rendered, l, registry, contextGizmos, b, staticUrl).outcome.Pass?
    ensures var first := Load(rendered, l, registry, contextGizmos, b, staticUrl);
      var second := Load(first.rendered, first.lists, registry, contextGizmos, b, staticUrl);
      var names := first.rendered.value;
      && second.outcome.Pass? && second.rendered == first.rendered
      && AllRegistered(names, registry)
      && (forall c :: c != Modals ==> second.lists.Get(c) == first.lists.Get(c))
      && second.lists.modals == first.lists.modals + Collected(registry, names, Modals, staticUrl)
  {
    var first := Load(rendered, l, registry, contextGizmos, b, staticUrl);
    var names := InsertAll(rendered.value, contextGizmos);
    InsertAllIdempotent(rendered.value, contextGizmos);
    assert first.rendered == Some(names);
    var second := Load(first.rendered, first.lists, registry, contextGizmos, b, staticUrl);
    AddGizmosModals(first.lists, registry, names, staticUrl);
    forall c | c != Modals ensures second.lists.Get(c) == first.lists.Get(c) {
      LoadAgainAsset(names, l, registry, b, staticUrl, c);
    }
  }

  /** Adding the same gizmos and baseline a second time leaves an asset list as it was. */
  lemma LoadAgainAsset(names: seq<string>, l: Lists, registry: Registry, b: Baseline, staticUrl: string -> string, c: Category)
    requires AllRegistered(names, registry) && c != Modals
    ensures var first := AddBaseline(AddGizmos(l, registry, names, staticUrl), b, staticUrl);
      AddBaseline(AddGizmos(first, registry, names, staticUrl), b, staticUrl).Get(c) == first.Get(c)
  {
    var mid := AddGizmos(l, registry, names, staticUrl);
    var first := AddBaseline(mid, b, staticUrl);
    var gathered := Collected(registry, names, c, staticUrl);
    AddGizmosAsset(l, registry, names, c, staticUrl);
    AddGizmosAsset(first, registry, names, c, staticUrl);
    if c == Css || c == Js {
      var base := if c == Css then ResolveAll(b.css, staticUrl) else ResolveAll(b.js, staticUrl);
      InsertAllAppend(l.Get(c), gathered, base);
      assert first.Get(c) == InsertAll(l.Get(c), gathered + base);
      InsertAllMembers(l.Get(c), gathered + base);
      InsertAllPresent(first.Get(c), gathered);
      InsertAllPresent(first.Get(c), base);
    } else {
      assert first.Get(c) == mid.Get(c) == InsertAll(l.Get(c), gathered);
      InsertAllMembers(l.Get(c), gathered);
      InsertAllPresent(first.Get(c), gathered);
    }
  }
}
