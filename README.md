# Gizmo dependency accumulation, modelled in Dafny

Tethys page templates use *gizmos*: reusable server-rendered widgets. Each gizmo class
declares its own CSS and JS, its vendor ("global") CSS and JS, and its modal fragments.
During one page render the `gizmo` and `import_gizmo_dependency` tags record which
gizmos the page uses in the context variable `gizmos_rendered`. The
`gizmo_dependencies` tag then collects every recorded gizmo's dependencies into five
per-render lists: css, js, global_css, global_js and modals. It appends the framework's
baseline CSS/JS after them and emits the lists as `<link>`/`<script>` markup. The work
is done once per render, which a "loaded" flag guarantees.

This project models that accumulator and the small parsers around it, all from
`tethys_gizmos/templatetags/tethys_gizmos.py`:

- `ordered_sets.dfy` (`OrderedSets`): the append-if-absent insert and its properties.
  These are: no duplicates, old entries kept as a prefix, exact membership, new entries
  only from the inserted ones, composition, and idempotence.
- `dependencies.dfy` (`Dependencies`): the gizmo name map as a `map` from names to
  `GizmoClass` records, and the five lists as the value `Lists`. It also holds the
  value-level specification `Load` of `load_gizmos`, with its error paths, and
  `RecordRendered` for `_load_gizmos_rendered`. Lemmas state what a load guarantees.
- `render_state.dfy` (`RenderState`): the imperative code. `TemplateContext` holds the
  `gizmos_rendered` variable. `RenderContext` holds the five lists and the loaded flag.
  Its methods are `_append_dependency`, the accessor loops, `load_gizmos` and
  `render`, each proved against the specification functions.
- `markup.dfy` (`Markup`): the tag formats, what each output type emits, and the
  newline join.
- `tag_parsers.dfy` (`TagParsers`): the `set`, `gizmo`, `import_gizmo_dependency` and
  `gizmo_dependencies` parsers, and the quote stripping of `_load_gizmo_name`. It also
  holds the `codify` filter.
- `text.dfy` (`Text`): the string operations these use (`in`, `endswith`, `strip`,
  `replace`, `lower`, `split`, `join`).
- `wrappers.dfy` (`Wrappers`): `Option`, `Result`, `Outcome`.

Foreign calls are parameters. `static()` is `staticUrl: string -> string`. The value of
`get_plotlyjs()` is `plotlyJs: string`. `get_tethys_gizmos_css/js` are a `Baseline`
value. The template-debug setting is `templateDebug: bool`. The gizmos the context scan
of `load_gizmos` finds are the sequence `contextGizmos`.

Exceptions are error values. `_load_gizmos_rendered` raises a template syntax error for
an unknown new name (`InvalidGizmoName`). `load_gizmos` raises a key error in two cases,
which the model keeps as paths rather than preconditions:

- `gizmos_rendered` is unset (`MissingGizmosRendered`).
- A recorded name is missing from the name map at line 401 (`UnregisteredGizmo`). The
  lists then hold what the gizmos before it appended.

A parser error is a `TagError`.

The modal list is appended to without de-duplication (lines 419-420 of
`tethys_gizmos/templatetags/tethys_gizmos.py`); `AddGizmosModals` and `LoadAgain` state this.

An absent render-context list is the empty sequence. The code only ever replaces an
absent list with `[]`, so the initialisation step of `load_gizmos` leaves `Lists`
unchanged.

## Model

| member | source | states |
|---|---|---|
| `Text.EndsWith` | tethys_gizmos/templatetags/tethys_gizmos.py:459 | `endswith`: the last characters of the string are the suffix |
| `Text.ContainsIff` | tethys_gizmos/templatetags/tethys_gizmos.py:374 | the external-URL test `"://" in dependency` holds exactly when the substring occurs at some index |
| `Text.LowerChar` | tethys_gizmos/templatetags/tethys_gizmos.py:167 | one character of an ASCII-only `lower()`: an ASCII capital becomes its small letter, every other character is kept |
| `Text.Lower` | tethys_gizmos/templatetags/tethys_gizmos.py:518 | an ASCII-only `lower()`: the string of the same length whose characters each go through `LowerChar` |
| `Text.ReplaceChar` | tethys_gizmos/templatetags/tethys_gizmos.py:167 | `replace(" ", "-")`: the string of the same length with every occurrence of one character replaced by another |
| `Text.StripLeft` | tethys_gizmos/templatetags/tethys_gizmos.py:518 | the result is no longer than the input, everything removed from the front is the stripped character, and the result does not start with it |
| `Text.StripLeftSuffix` | tethys_gizmos/templatetags/tethys_gizmos.py:518 | what `lstrip` keeps is a suffix of its input |
| `Text.StripRight` | tethys_gizmos/templatetags/tethys_gizmos.py:518 | the result is no longer than the input, everything removed from the end is the stripped character, and the result does not end with it |
| `Text.StripRightPrefix` | tethys_gizmos/templatetags/tethys_gizmos.py:518 | what `rstrip` keeps is a prefix of its input |
| `Text.Strip` | tethys_gizmos/templatetags/tethys_gizmos.py:518 | the result never starts or ends with the stripped character, and a string without it is unchanged |
| `Text.StripWrapped` | tethys_gizmos/templatetags/tethys_gizmos.py:518 | stripping a quote character that wraps a string free of it gives back that string |
| `Text.RemoveChar` | tethys_gizmos/templatetags/tethys_gizmos.py:199-200 | the removed character no longer occurs, no other character is introduced, and a string without it is unchanged |
| `Text.RemoveCharAppend` | tethys_gizmos/templatetags/tethys_gizmos.py:199-200 | removing a character distributes over concatenation |
| `Text.Split` | tethys_gizmos/templatetags/tethys_gizmos.py:99 | `split` yields at least one piece, and no piece contains the separator |
| `Text.Join` | tethys_gizmos/templatetags/tethys_gizmos.py:485 | `sep.join(parts)`: the pieces in order with the separator between each two |
| `Text.JoinSplit` | tethys_gizmos/templatetags/tethys_gizmos.py:99-100 | joining the pieces of a split with the separator gives back the original string |
| `Text.SplitJoin` | tethys_gizmos/templatetags/tethys_gizmos.py:99-100 | splitting a join of separator-free pieces gives back the pieces |
| `Text.JoinAppend` | tethys_gizmos/templatetags/tethys_gizmos.py:485 | joining two tag lists puts the separator between them exactly when both are non-empty |
| `OrderedSets.Insert` | tethys_gizmos/templatetags/tethys_gizmos.py:379-382 | after the insert the URL is present; a URL already present leaves the list as it was; a new URL lands at the end |
| `OrderedSets.InsertMembers` | tethys_gizmos/templatetags/tethys_gizmos.py:379-382 | the insert keeps the old list as a prefix, adds only the URL, and never creates a duplicate |
| `OrderedSets.InsertAll` | tethys_gizmos/templatetags/tethys_gizmos.py:403-418 | the accessor loops: each URL of a sequence in turn goes through `Insert`, so it is appended only if absent; its properties are the `InsertAll*` lemmas |
| `OrderedSets.InsertAllPrefix` | tethys_gizmos/templatetags/tethys_gizmos.py:403-418 | repeated inserts never change or move existing entries |
| `OrderedSets.InsertAllPresent` | tethys_gizmos/templatetags/tethys_gizmos.py:379-382 | inserting only URLs already present changes nothing |
| `OrderedSets.InsertAllMembers` | tethys_gizmos/templatetags/tethys_gizmos.py:403-418 | after the inserts the list holds exactly the old entries and the inserted ones |
| `OrderedSets.InsertAllNoDuplicates` | tethys_gizmos/templatetags/tethys_gizmos.py:379-382 | a duplicate-free list stays duplicate-free |
| `OrderedSets.InsertAllSuffix` | tethys_gizmos/templatetags/tethys_gizmos.py:379-382 | every entry past the old prefix is an inserted URL that was not already present |
| `OrderedSets.InsertAllAppend` | tethys_gizmos/templatetags/tethys_gizmos.py:399-428 | inserting one sequence of URLs and then another is the same as inserting their concatenation |
| `OrderedSets.InsertAllIdempotent` | tethys_gizmos/templatetags/tethys_gizmos.py:379-382 | inserting the same URLs a second time changes nothing |
| `Dependencies.FromName` | tethys_gizmos/templatetags/tethys_gizmos.py:71-82 | a string is a valid output type exactly when it is the name of one of the five categories |
| `Dependencies.ResolveUrl` | tethys_gizmos/templatetags/tethys_gizmos.py:374-377 | a dependency containing `://` is kept verbatim; any other is passed to the static-file resolver |
| `Dependencies.ResolveAll` | tethys_gizmos/templatetags/tethys_gizmos.py:403-418 | each dependency of one accessor resolved in turn, in order |
| `Dependencies.AddGizmo` | tethys_gizmos/templatetags/tethys_gizmos.py:401-420 | one gizmo's contribution: its own CSS and JS and its vendor CSS and JS, resolved, inserted into css, js, global_css and global_js; its modals appended to the modal list |
| `Dependencies.AddGizmos` | tethys_gizmos/templatetags/tethys_gizmos.py:399-420 | the loop over `gizmos_rendered` as a value: each registered gizmo's contribution (`AddGizmo`) applied in order |
| `Dependencies.AddBaseline` | tethys_gizmos/templatetags/tethys_gizmos.py:422-428 | the framework's baseline CSS and JS, resolved, inserted into css and js; the other three lists untouched |
| `Dependencies.FirstUnregistered` | tethys_gizmos/templatetags/tethys_gizmos.py:399-401 | it finds the first recorded name missing from the name map, or none when all are registered |
| `Dependencies.FirstUnregisteredAt` | tethys_gizmos/templatetags/tethys_gizmos.py:399-401 | a missing name that comes after only registered names is the first missing name |
| `Dependencies.Load` | tethys_gizmos/templatetags/tethys_gizmos.py:384-430 | `load_gizmos` as a value: it fails exactly when `gizmos_rendered` is unset (lists untouched) or a rendered name is unregistered; the new `gizmos_rendered` is the old one with the context's gizmos inserted |
| `Dependencies.RecordRendered` | tethys_gizmos/templatetags/tethys_gizmos.py:207-217 | it fails exactly for a new name missing from the name map; a present name or no name is a no-op; otherwise the name is appended once |
| `Dependencies.RecordRenderedKeepsInvariant` | tethys_gizmos/templatetags/tethys_gizmos.py:210-217 | recording keeps `gizmos_rendered` duplicate-free and made only of registered names |
| `Dependencies.RecordRenderedTwice` | tethys_gizmos/templatetags/tethys_gizmos.py:212 | recording the same gizmo twice is the same as recording it once |
| `Dependencies.AddGizmosStep` | tethys_gizmos/templatetags/tethys_gizmos.py:399-420 | one more loop iteration over a registered name adds that gizmo's dependencies |
| `Dependencies.AddGizmosAsset` | tethys_gizmos/templatetags/tethys_gizmos.py:399-418 | each asset list becomes the old list with every gizmo's resolved URLs for that category inserted, in gizmo order |
| `Dependencies.AddGizmosModals` | tethys_gizmos/templatetags/tethys_gizmos.py:419-420 | the modal list becomes the old list followed by every gizmo's modals, repeats included |
| `Dependencies.AddGizmosKeepsPrefix` | tethys_gizmos/templatetags/tethys_gizmos.py:399-420 | appending the rendered gizmos' dependencies never changes or moves an entry already in any of the five lists |
| `Dependencies.LoadKeepsPrefix` | tethys_gizmos/templatetags/tethys_gizmos.py:386-428 | on success or failure, each of the five lists keeps its old entries unchanged and in place |
| `Dependencies.LoadKeepsDistinct` | tethys_gizmos/templatetags/tethys_gizmos.py:399-428 | after a load the css, js, global_css and global_js lists contain no duplicates if they had none before |
| `Dependencies.LoadModals` | tethys_gizmos/templatetags/tethys_gizmos.py:419-420 | a successful load appends every rendered gizmo's modals without de-duplication |
| `Dependencies.LoadBaselineLast` | tethys_gizmos/templatetags/tethys_gizmos.py:422-428 | in css and js the per-gizmo list is a prefix; everything after it is a baseline URL not already present; every baseline URL is in the list |
| `Dependencies.LoadGlobalLists` | tethys_gizmos/templatetags/tethys_gizmos.py:411-418 | global_css and global_js get only the gizmos' vendor URLs and no baseline |
| `Dependencies.LoadAgain` | tethys_gizmos/templatetags/tethys_gizmos.py:384-440 | loading again keeps `gizmos_rendered` and all four asset lists, but appends every modal a second time, which is why `render` loads only while the flag is unset |
| `Markup.LinkTag` | tethys_gizmos/templatetags/tethys_gizmos.py:451 | the stylesheet link for one CSS URL |
| `Markup.ScriptTag` | tethys_gizmos/templatetags/tethys_gizmos.py:470-473 | the `src` script tag for one JS URL |
| `Markup.InlineScript` | tethys_gizmos/templatetags/tethys_gizmos.py:460-468 | the script block that inlines the plotly source |
| `Markup.LinkTagShape` | tethys_gizmos/templatetags/tethys_gizmos.py:451 | a stylesheet link is a link tag and not a script tag |
| `Markup.ScriptTagShape` | tethys_gizmos/templatetags/tethys_gizmos.py:470-473 | a `src` script is a script tag and not a stylesheet link |
| `Markup.InlineScriptShape` | tethys_gizmos/templatetags/tethys_gizmos.py:460-468 | the inlined plotly block is a script tag and not a stylesheet link |
| `Markup.Format` | tethys_gizmos/templatetags/tethys_gizmos.py:445-482 | one entry's markup: a modal verbatim, a css or global_css URL as a stylesheet link, a js URL as a `src` script, a global_js URL as a `src` script unless it ends in `plotly-load_from_python.js`, in which case the inlined plotly source |
| `Markup.FormatEach` | tethys_gizmos/templatetags/tethys_gizmos.py:446-482 | the tag loops: one `Format`ted tag per list entry, in order |
| `Markup.Emitted` | tethys_gizmos/templatetags/tethys_gizmos.py:443-482 | the tags for an output type, in the order of the five `if`s: modals only when asked for; global_css, css, global_js and js when asked for or when no type is given |
| `Markup.EmittedSingle` | tethys_gizmos/templatetags/tethys_gizmos.py:443-482 | a named output type emits exactly its own list, one tag per entry, in order |
| `Markup.CssEmitsOnlyLinks` | tethys_gizmos/templatetags/tethys_gizmos.py:449-455 | output types `css` and `global_css` emit only stylesheet links and never a script tag |
| `Markup.JsEmitsOnlyScripts` | tethys_gizmos/templatetags/tethys_gizmos.py:457-482 | output types `js` and `global_js` emit only script tags and never a stylesheet link |
| `Markup.ModalsVerbatim` | tethys_gizmos/templatetags/tethys_gizmos.py:445-447 | output type `modals` emits the modal fragments verbatim |
| `Markup.GlobalJsPlotlyInlined` | tethys_gizmos/templatetags/tethys_gizmos.py:457-474 | an entry ending in `plotly-load_from_python.js` becomes the inline plotly script; every other entry becomes a `src` script tag |
| `Markup.EmittedAll` | tethys_gizmos/templatetags/tethys_gizmos.py:449-482 | with no output type, global_css, css, global_js and js follow in that order, and the modals never affect the output |
| `Markup.RenderedAll` | tethys_gizmos/templatetags/tethys_gizmos.py:484-486 | the unfiltered output string is the non-empty single-type outputs joined by newlines |
| `Markup.JoinNonEmpty` | tethys_gizmos/templatetags/tethys_gizmos.py:485 | the newline join of a concatenation of tag lists equals the join of their non-empty joins |
| `Markup.FormatAll` | tethys_gizmos/templatetags/tethys_gizmos.py:446-482 | the tag loop yields exactly one formatted tag per list entry, in order |
| `RenderState.TemplateContext.LoadGizmosRendered` | tethys_gizmos/templatetags/tethys_gizmos.py:202-217 | creates `gizmos_rendered` when unset; the result and new list are those of `RecordRendered`; on error the list is left as it was (created if it was unset) |
| `RenderState.TemplateContext.AddContextGizmos` | tethys_gizmos/templatetags/tethys_gizmos.py:392-397 | every gizmo found in the context is appended to `gizmos_rendered` unless already there, without checking the name map |
| `RenderState.RenderIncludeDependency` | tethys_gizmos/templatetags/tethys_gizmos.py:219-229 | the gizmo is recorded and nothing is rendered; an invalid name is an error only in template-debug mode and otherwise gives empty output |
| `RenderState.RenderContext.AppendDependency` | tethys_gizmos/templatetags/tethys_gizmos.py:369-382 | an external URL is kept verbatim, any other path goes through `static`; the URL is appended to its list only if absent, and nothing else changes |
| `RenderState.RenderContext.AppendDependencies` | tethys_gizmos/templatetags/tethys_gizmos.py:403-418 | one accessor's loop inserts that accessor's resolved URLs into one list and changes nothing else |
| `RenderState.RenderContext.AppendModals` | tethys_gizmos/templatetags/tethys_gizmos.py:419-420 | the modal loop appends every modal; nothing else changes |
| `RenderState.RenderContext.AppendGizmo` | tethys_gizmos/templatetags/tethys_gizmos.py:401-420 | one gizmo's five accessor loops produce `AddGizmo` |
| `RenderState.RenderContext.AppendGizmos` | tethys_gizmos/templatetags/tethys_gizmos.py:399-420 | the loop over `gizmos_rendered` adds every gizmo's dependencies, or stops with a key error at the first unregistered name and keeps what came before it |
| `RenderState.RenderContext.LoadGizmos` | tethys_gizmos/templatetags/tethys_gizmos.py:384-430 | the new lists, `gizmos_rendered` and the outcome are those of `Load`; the loaded flag is set exactly on success |
| `RenderState.RenderContext.Render` | tethys_gizmos/templatetags/tethys_gizmos.py:432-486 | loads only while the flag is unset, so a second render changes no list; it fails exactly when the flag was unset and the load failed, with that load's error; otherwise the result is the newline join of the emitted tags for the output type |
| `TagParsers.LoadGizmoName` | tethys_gizmos/templatetags/tethys_gizmos.py:190-200 | a name starting with a quote loses every `'` and `"`; any other name is unchanged |
| `TagParsers.LoadGizmoNameLiteral` | tethys_gizmos/templatetags/tethys_gizmos.py:196-200 | a quoted string literal with either kind of quote gives back the name inside it |
| `TagParsers.LoadGizmoNameIdempotent` | tethys_gizmos/templatetags/tethys_gizmos.py:196-200 | stripping a stripped, non-empty name changes nothing |
| `TagParsers.SetVarTarget` | tethys_gizmos/templatetags/tethys_gizmos.py:97-101 | the dotted variable name splits into a path and a final name; neither contains a dot, and joined with dots they give back the name |
| `TagParsers.SetVar` | tethys_gizmos/templatetags/tethys_gizmos.py:117-128 | fewer than four pieces is a syntax error; otherwise the node targets piece 1 and takes piece 3 as its value |
| `TagParsers.Gizmo` | tethys_gizmos/templatetags/tethys_gizmos.py:287-325 | one argument gives options and no name; two give a quote-stripped name and then options; any other count is an error |
| `TagParsers.ImportGizmoDependency` | tethys_gizmos/templatetags/tethys_gizmos.py:328-357 | exactly one argument is required, and the node carries its quote-stripped name |
| `TagParsers.GizmoDependencies` | tethys_gizmos/templatetags/tethys_gizmos.py:489-527 | more than one argument, or one whose normalized form is no valid output type, is an error; no argument gives output type None; a selected type's name is the normalized argument |
| `TagParsers.NormalizeOutputType` | tethys_gizmos/templatetags/tethys_gizmos.py:518 | the argument with surrounding double quotes, then single quotes, stripped, then lower-cased |
| `TagParsers.GizmoDependenciesSelects` | tethys_gizmos/templatetags/tethys_gizmos.py:516-527 | an argument that normalizes to an output type's name selects that output type |
| `TagParsers.NormalizeQuoted` | tethys_gizmos/templatetags/tethys_gizmos.py:518 | an argument wrapped in either kind of quote normalizes to its lowercased contents |
| `TagParsers.GizmoDependenciesAccepts` | tethys_gizmos/templatetags/tethys_gizmos.py:503-527 | every output type is accepted in any letter case, bare or wrapped in double or single quotes |
| `TagParsers.Codify` | tethys_gizmos/templatetags/tethys_gizmos.py:165-167 | the result has the input's length and no spaces; each space becomes a dash and every other character is the input character lower-cased |
| `TagParsers.CodifyIdempotent` | tethys_gizmos/templatetags/tethys_gizmos.py:165-167 | codifying a codified string changes nothing |
| `TagParsers.CodifyHelloWorld` | tethys_gizmos/templatetags/tethys_gizmos.py:165-167 | `codify("Hello World")` is `"hello-world"` |

## Left out

- Building the gizmo name map and the extension path map at import time (lines 37-67) is not modelled. It scans modules, imports extension packages and touches the filesystem. The model takes the built map as the `Registry` parameter.
- The Django context scan at lines 392-395 is not modelled: iterating the context's dictionaries and resolving each key as a template variable. The gizmo names it finds are the `contextGizmos` parameter.
- `TethysGizmoIncludeNode.render` (lines 241-284) is not modelled. It resolves the options variable, derives the gizmo's template path through `Path` and renders it with the template loader. It swallows errors according to `settings.TEMPLATES`. All of that is template-engine and filesystem machinery.
- `SetVarNode.render` (lines 103-114) is not modelled. It resolves a template variable and writes into nested context objects. Only the name splitting in its constructor is modelled (`SetVarTarget`).
- `HighchartsDateEncoder`, `json_date_handler`, `jsonify` and `divide` are not modelled. They convert dates using the local timezone and use floating-point arithmetic.
- `isstring` and `return_item` are not modelled. Their results depend on Python runtime types and on catching any exception.
- `static()`, `get_plotlyjs()` and `TethysGizmoOptions.get_tethys_gizmos_css/js` are foreign calls. They are parameters of the model.
- Error messages are not modelled. Each error is an error value, carrying the offending name or output type where the message would show it.
- `tethys_compute/admin.py` is declarative admin configuration and is not modelled.
- Text.LowerChar, Text.Lower: lower-case only ASCII letters and keep every other character. Python's Unicode `lower()` also lowers non-ASCII capitals and can lengthen a string (U+0130 becomes two code points).
- TagParsers.Codify: lower-cases only ASCII letters, unlike Python's Unicode `lower()`. Non-ASCII text is kept as it is.
- TagParsers.NormalizeOutputType: lower-cases only ASCII letters. Whether an output type is accepted is still decided as in Python. The only non-ASCII characters whose lower-case form contains an ASCII letter are U+212A (to `k`) and U+0130 (to `i` plus a combining dot). Neither `k` nor `i` occurs in a valid output type.
- TagParsers.LoadGizmoName: requires a non-empty name. The source would fail with an index error on `""`. The modelled callers, the `gizmo` and `import_gizmo_dependency` parsers, pass only non-empty `split_contents` pieces (`NonEmptyBits`). The caller at line 247, in the left-out `TethysGizmoIncludeNode.render`, passes a gizmo class's `gizmo_name`.
