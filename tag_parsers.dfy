/** The template tags' compile-time parsers, the gizmo-name quote stripping and the
    `codify` filter. A tag arrives as the pieces `split_contents` gives: the tag name
    first, then its arguments, none of them empty. */
module TagParsers {
  import opened Wrappers
  import opened Text
  import opened Dependencies

  /** A malformed tag: each is a template syntax error raised while the template compiles. */
  datatype TagError =
    | SetSyntax                      // `set` with fewer than three arguments
    | GizmoArity                     // `gizmo` with neither one nor two arguments
    | ImportArity                    // `import_gizmo_dependency` with other than one argument
    | DependenciesArity              // `gizmo_dependencies` with more than one argument
    | InvalidOutputType(given: string)

  /** The nodes the parsers build. */
  datatype Node =
    | SetVarNode(path: seq<string>, varName: string, varValue: string)
    | IncludeNode(options: string, gizmoName: Option<string>)
    | IncludeDependencyNode(gizmoName: Option<string>)
    | DependenciesNode(outputType: Option<Category>)

  /** Every piece is non-empty, as `split_contents` guarantees. */
  predicate NonEmptyBits(bits: seq<string>) {
    forall i :: 0 <= i < |bits| ==> bits[i] != []
  }

  predicate IsQuote(ch: char) {
    ch == '"' || ch == '\''
  }

  /** `_load_gizmo_name`: only the first character is looked at; a name that starts with a
      quote loses every quote character, any other name is kept. */
  function LoadGizmoName(name: string): (r: string)
    requires name != []
    ensures IsQuote(name[0]) ==> '"' !in r && '\'' !in r && |r| <= |name|
    ensures !IsQuote(name[0]) ==> r == name
  {
    if IsQuote(name[0]) then RemoveChar(RemoveChar(name, '\''), '"') else name
  }

  /** A quoted string literal gives back the name inside the quotes. */
  lemma LoadGizmoNameLiteral(n: string, q: char)
    requires IsQuote(q) && '"' !in n && '\'' !in n
    ensures LoadGizmoName([q] + n + [q]) == n
  {
    RemoveCharAppend([q] + n, [q], '\'');
    RemoveCharAppend([q], n, '\'');
    var once := RemoveChar([q], '\'') + n + RemoveChar([q], '\'');
    RemoveCharAppend(RemoveChar([q], '\'') + n, RemoveChar([q], '\''), '"');
    RemoveCharAppend(RemoveChar([q], '\''), n, '"');
  }

  /** Stripping is idempotent whenever the stripped name is not empty. */
  lemma LoadGizmoNameIdempotent(name: string)
    requires name != [] && LoadGizmoName(name) != []
    ensures LoadGizmoName(LoadGizmoName(name)) == LoadGizmoName(name)
  {
    var r := LoadGizmoName(name);
    if IsQuote(name[0]) {
      assert r[0] in r;
    }
  }

  /** `SetVarNode.__init__`: the variable name split at dots into a path and a final name. */
  function SetVarTarget(varName: string, varValue: string): (n: Node)
    ensures n.SetVarNode?
    ensures Join(n.path + [n.varName], ".") == varName
    ensures '.' !in n.varName && forall p :: p in n.path ==> '.' !in p
    ensures n.varValue == varValue
  {
    var names := Split(varName, '.');
    JoinSplit(varName, '.');
    assert names[..|names| - 1] + [names[|names| - 1]] == names;
    SetVarNode(names[..|names| - 1], names[|names| - 1], varValue)
  }

  /** `set_var`: `{% set <name> = <value> %}`. The third piece is not checked to be `=`. */
  function SetVar(bits: seq<string>): (r: Result<Node, TagError>)
    ensures r.Failure? <==> |bits| < 4
    ensures r.Failure? ==> r.error == SetSyntax
    ensures r.Success? ==> r.value.SetVarNode? && Join(r.value.path + [r.value.varName], ".") == bits[1] && r.value.varValue == bits[3]
  {
    if |bits| < 4 then Failure(SetSyntax) else Success(SetVarTarget(bits[1], bits[3]))
  }

  /** `gizmo`: `{% gizmo options %}` or `{% gizmo name options %}`. */
  function Gizmo(bits: seq<string>): (r: Result<Node, TagError>)
    requires NonEmptyBits(bits)
    ensures r.Success? <==> |bits| == 2 || |bits| == 3
    ensures r.Failure? ==> r.error == GizmoArity
    ensures r.Success? ==> r.value.IncludeNode? && r.value.options == bits[|bits| - 1]
    ensures r.Success? ==> (r.value.gizmoName.None? <==> |bits| == 2)
    ensures |bits| == 3 ==> r.value.gizmoName == Some(LoadGizmoName(bits[1]))
  {
    var args := if bits == [] then [] else bits[1..];
    if |args| == 1 then Success(IncludeNode(args[0], None))
    else if |args| == 2 then Success(IncludeNode(args[1], Some(LoadGizmoName(args[0]))))
    else Failure(GizmoArity)
  }

  /** `import_gizmo_dependency`: exactly one argument, the gizmo name. */
  function ImportGizmoDependency(bits: seq<string>): (r: Result<Node, TagError>)
    requires NonEmptyBits(bits)
    ensures r.Success? <==> |bits| == 2
    ensures r.Failure? ==> r.error == ImportArity
    ensures r.Success? ==> r.value == IncludeDependencyNode(Some(LoadGizmoName(bits[1])))
  {
    if |bits| != 2 then Failure(ImportArity) else Success(IncludeDependencyNode(Some(LoadGizmoName(bits[1]))))
  }

  /** Surrounding double quotes then single quotes removed, then lower-cased. */
  function NormalizeOutputType(s: string): string {
    Lower(Strip(Strip(s, '"'), '\''))
  }

  /** `gizmo_dependencies`: at most one argument, which must name an output type. */
  function GizmoDependencies(bits: seq<string>): (r: Result<Node, TagError>)
    requires NonEmptyBits(bits)
    ensures r.Failure? <==> |bits| > 2 || (|bits| == 2 && FromName(NormalizeOutputType(bits[1])).None?)
    ensures r.Success? ==> r.value.DependenciesNode?
    ensures r.Success? && r.value.outputType.Some? ==> |bits| == 2 && NormalizeOutputType(bits[1]) == Name(r.value.outputType.value)
    ensures r.Success? && r.value.outputType.None? ==> |bits| < 2
  {
    if |bits| > 2 then Failure(DependenciesArity)
    else
      var outputType := if |bits| == 2 then bits[1] else [];
      if outputType == [] then Success(DependenciesNode(None))
      else
        var normalized := NormalizeOutputType(outputType);
        match FromName(normalized)
        case Some(c) => Success(DependenciesNode(Some(c)))
        case None => Failure(InvalidOutputType(normalized))
  }

  /** A tag whose one argument normalizes to an output type's name selects that output type. */
  lemma GizmoDependenciesSelects(bits: seq<string>, c: Category)
    requires NonEmptyBits(bits) && |bits| == 2 && FromName(NormalizeOutputType(bits[1])) == Some(c)
    ensures GizmoDependencies(bits) == Success(DependenciesNode(Some(c)))
  {
  }

  lemma NoQuotes(s: string, c: Category)
    requires Lower(s) == Name(c)
    ensures '"' !in s && '\'' !in s && s != []
  {
    forall i | 0 <= i < |s| ensures s[i] != '"' && s[i] != '\'' {
      assert Lower(s)[i] == LowerChar(s[i]);
    }
    assert |Name(c)| > 0;
  }

  lemma NormalizeQuoted(s: string, q: char)
    requires IsQuote(q) && '"' !in s && '\'' !in s
    ensures NormalizeOutputType([q] + s + [q]) == Lower(s)
  {
    var t := [q] + s + [q];
    StripWrapped(s, q);
    if q == '"' {
      assert Strip(t, '"') == s;
      assert Strip(s, '\'') == s;
    } else {
      assert forall i :: 0 <= i < |t| ==> t[i] != '"';
      assert Strip(t, '"') == t;
    }
  }

  /** Every output type is accepted in any letter case, bare or wrapped in either kind of quote. */
  lemma GizmoDependenciesAccepts(tag: string, s: string, c: Category)
    requires tag != [] && Lower(s) == Name(c)
    ensures NonEmptyBits([tag, s]) && NonEmptyBits([tag, "\"" + s + "\""]) && NonEmptyBits([tag, "'" + s + "'"])
    ensures GizmoDependencies([tag, s]) == Success(DependenciesNode(Some(c)))
    ensures GizmoDependencies([tag, "\"" + s + "\""]) == Success(DependenciesNode(Some(c)))
    ensures GizmoDependencies([tag, "'" + s + "'"]) == Success(DependenciesNode(Some(c)))
  {
    NoQuotes(s, c);
    FromNameName(c);
    GizmoDependenciesSelects([tag, s], c);
    NormalizeQuoted(s, '"');
    GizmoDependenciesSelects([tag, "\"" + s + "\""], c);
    NormalizeQuoted(s, '\'');
    GizmoDependenciesSelects([tag, "'" + s + "'"], c);
  }

  /** `codify`: lower-case the text and turn spaces into dashes. */
  function Codify(data: string): (r: string)
    ensures |r| == |data|
    ensures ' ' !in r
    ensures forall i :: 0 <= i < |r| ==> !('A' <= r[i] <= 'Z')
    ensures forall i :: 0 <= i < |r| ==> (data[i] == ' ' <==> r[i] == '-') || data[i] == '-'
    ensures forall i :: 0 <= i < |r| && data[i] != ' ' ==> r[i] == LowerChar(data[i])
  {
    ReplaceChar(Lower(data), ' ', '-')
  }

  lemma CodifyIdempotent(data: string)
    ensures Codify(Codify(data)) == Codify(data)
  {
  }

  lemma CodifyHelloWorld()
    ensures Codify("Hello World") == "hello-world"
  {
  }
}
