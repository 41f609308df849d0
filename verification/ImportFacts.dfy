/** Import resolution: from the import statements of one file to edges over the repository's files. */
module ImportFacts {
  import opened Wrappers
  import opened Reachability

  /** An import edge as written: its kind, the repository file it resolves to, and its name. */
  datatype Import = Import(kind: string, target: Option<File>, name: Option<string>)

  /** The statements of a parsed source that matter here; dotted names are kept as their parts. */
  datatype Statement =
    | ImportNames(dotted: seq<seq<string>>)
    | FromImport(level: nat, mod: seq<string>, names: seq<string>)
    | DynamicCall(argument: Option<string>)

  datatype Parsed = SyntaxError | Tree(statements: seq<Statement>, decorated: bool)

  function Split(path: string): (parts: seq<string>)
    ensures |parts| >= 1
  {
    if path == "" then [""]
    else
      var rest := Split(path[1..]);
      if path[0] == '/' then [""] + rest else [[path[0]] + rest[0]] + rest[1..]
  }

  function Join(parts: seq<string>, sep: string): string {
    if |parts| == 0 then ""
    else if |parts| == 1 then parts[0]
    else parts[0] + sep + Join(parts[1..], sep)
  }

  /** A real module, then a package, then their stubs; the first one present wins. */
  function Resolve(parts: seq<string>, fileset: set<File>): (target: Option<File>)
    ensures target.Some? ==> target.value in fileset
  {
    var base := Join(parts, "/");
    if File(base + ".py") in fileset then Some(File(base + ".py"))
    else if File(base + "/__init__.py") in fileset then Some(File(base + "/__init__.py"))
    else if File(base + ".pyi") in fileset then Some(File(base + ".pyi"))
    else if File(base + "/__init__.pyi") in fileset then Some(File(base + "/__init__.pyi"))
    else None
  }

  /** The package a relative import is anchored at, or nothing when it climbs above the repository root. */
  function RelativeAnchor(file: File, level: nat): Option<seq<string>>
    requires level > 0
  {
    var parts := Split(file.path);
    var pkg := parts[..|parts| - 1];
    if level - 1 > |pkg| then None else Some(pkg[..|pkg| - (level - 1)])
  }

  /** A package directory's name, or the stem of a module at the root. */
  function TopLevelName(file: File): string {
    var parts := Split(file.path);
    if |parts| > 1 then parts[0] else Stem(parts[0])
  }

  /** The name up to its last dot. */
  function Stem(name: string): string {
    if '.' !in name then name
    else if name[|name| - 1] == '.' then name[..|name| - 1]
    else Stem(name[..|name| - 1])
  }

  function TopLevelNames(fileset: set<File>): set<string> {
    set f | f in fileset :: TopLevelName(f)
  }

  function UnresolvedKind(parts: seq<string>, top: set<string>): string {
    if |parts| > 0 && parts[0] in top then "static" else "external"
  }

  function Dots(level: nat): string {
    if level == 0 then "" else "." + Dots(level - 1)
  }

  function FromName(level: nat, mod: seq<string>, leaf: string): string {
    Dots(level) + Join((if mod == [] then [] else [Join(mod, ".")]) + (if leaf == "" then [] else [leaf]), ".")
  }

  function NamesEdges(names: seq<seq<string>>, fileset: set<File>): (q: seq<Import>)
    ensures InRepository(q, fileset)
  {
    if names == [] then []
    else
      var target := Resolve(names[0], fileset);
      var kind := if target.Some? then "static" else UnresolvedKind(names[0], TopLevelNames(fileset));
      [Import(kind, target, Some(Join(names[0], ".")))] + NamesEdges(names[1..], fileset)
  }

  /** One `from` import without a wildcard: a name may itself be a submodule, else its module is the target. */
  function FromEdges(level: nat, mod: seq<string>, base: seq<string>, names: seq<string>,
                     fileset: set<File>): (q: seq<Import>)
    ensures InRepository(q, fileset)
  {
    if names == [] then []
    else
      var kind := if level > 0 then "relative" else "static";
      var submodule := Resolve(base + [names[0]], fileset);
      var target := if submodule.None? && base != [] then Resolve(base, fileset) else submodule;
      var name := Some(FromName(level, mod, names[0]));
      var edge := if target.None? && level == 0 then Import(UnresolvedKind(base, TopLevelNames(fileset)), None, name)
                  else Import(kind, target, name);
      [edge] + FromEdges(level, mod, base, names[1..], fileset)
  }

  function StatementEdges(s: Statement, file: File, fileset: set<File>): (q: seq<Import>)
    ensures InRepository(q, fileset)
  {
    match s
    case ImportNames(names) => NamesEdges(names, fileset)
    case DynamicCall(argument) => [Import("dynamic", None, argument)]
    case FromImport(level, mod, names) =>
      var wildcard := "*" in names;
      var kind := if wildcard then "wildcard" else if level > 0 then "relative" else "static";
      var leaf := if wildcard then "*" else if names != [] then names[0] else "";
      var anchor := if level > 0 then RelativeAnchor(file, level) else Some([]);
      if anchor.None? then [Import(kind, None, Some(FromName(level, mod, leaf)))]
      else
        var base := anchor.value + mod;
        if wildcard then [Import(kind, if base == [] then None
          else Resolve(base, fileset), Some(FromName(level, mod, "*")))]
        else FromEdges(level, mod, base, names, fileset)
  }

  function TreeEdges(statements: seq<Statement>, file: File, fileset: set<File>): (q: seq<Import>)
    ensures InRepository(q, fileset)
  {
    if statements == [] then []
    else
      StatementEdges(statements[0], file, fileset)
      + TreeEdges(statements[1..], file, fileset)
  }

  /** Every resolved import names a file of the repository, and is static, relative or a wildcard. */
  ghost predicate InRepository(q: seq<Import>, fileset: set<File>) {
    forall i :: i in q && i.target.Some? ==>
      i.target.value in fileset && (i.kind == "static" || i.kind == "relative" || i.kind == "wildcard")
  }

  /** What one parse of a file yields. */
  datatype Facts = Facts(imports: seq<Import>, entrypoint: bool, parseError: bool)

  /** The parser: an uninterpreted function of the source text. */
  type Parser = string -> Parsed

  /** What a file yields, as a function of its path, its content and the files there are. */
  type Reader = (File, string, set<File>) -> Facts

  function Reading(parse: Parser): Reader {
    (file, source, fileset) => FactsOf(parse, file, source, fileset)
  }

  function EntrypointName(file: File): bool {
    var parts := Split(file.path);
    var base := parts[|parts| - 1];
    base in {"__init__.py", "__main__.py", "main.py"} || "handle" <= base
  }

  function FactsOf(parse: Parser, file: File, source: string, fileset: set<File>): (facts: Facts)
    ensures InRepository(facts.imports, fileset)
  {
    match parse(source)
    case SyntaxError => Facts([], EntrypointName(file), true)
    case Tree(statements, decorated) => Facts(TreeEdges(statements, file, fileset), EntrypointName(file)
      || decorated, false)
  }

  // ---- Paths and packages ----------------------------------------------------------------------------

  ghost predicate Plain(parts: seq<string>) {
    forall p <- parts :: '/' !in p
  }

  lemma JoinCons(parts: seq<string>)
    requires |parts| > 1
    ensures Join(parts, "/") == parts[0] + ("/" + Join(parts[1..], "/"))
  {
  }

  lemma {:induction false} SplitFirst(p: string, tail: string)
    requires '/' !in p
    ensures Split(p + tail) == [p + Split(tail)[0]] + Split(tail)[1..]
  {
    if p == "" {
      assert p + tail == tail && p + Split(tail)[0] == Split(tail)[0];
    } else {
      assert p[0] in p;
      SplitFirst(p[1..], tail);
      assert [p[0]] + (p[1..] + tail) == p + tail;
      assert [p[0]] + (p[1..] + Split(tail)[0]) == p + Split(tail)[0];
    }
  }

  /** Splitting a path gives back the parts it was joined from. */
  lemma {:induction false} SplitJoin(parts: seq<string>)
    requires parts != [] && Plain(parts)
    ensures Split(Join(parts, "/")) == parts
    decreases |parts|
  {
    var p := parts[0];
    assert p in parts && p + "" == p;
    if |parts| == 1 {
      SplitFirst(p, "");
    } else {
      assert forall q <- parts[1..] :: q in parts;
      var rest := Join(parts[1..], "/");
      SplitJoin(parts[1..]);
      JoinCons(parts);
      SplitFirst(p, "/" + rest);
      assert parts == [p] + parts[1..];
    }
  }

  lemma {:induction false} FromEdgesAt(level: nat, mod: seq<string>, base: seq<string>, names: seq<string>,
                                       fileset: set<File>, i: nat)
    requires i < |names|
    ensures |FromEdges(level, mod, base, names, fileset)| == |names|
    ensures var target := Imported(base, names[i], fileset);
      FromEdges(level, mod, base, names, fileset)[i]
      == Import(if level > 0 then "relative" else AbsoluteKind(target, base, fileset), target,
        Some(FromName(level, mod, names[i])))
  {
    if i > 0 {
      FromEdgesAt(level, mod, base, names[1..], fileset, i - 1);
    } else {
      FromEdgesLength(level, mod, base, names, fileset);
      UnresolvedKindIff(base, fileset);
    }
  }

  lemma {:induction false} FromEdgesLength(level: nat, mod: seq<string>, base: seq<string>, names: seq<string>,
                                           fileset: set<File>)
    ensures |FromEdges(level, mod, base, names, fileset)| == |names|
  {
    if names != [] {
      FromEdgesLength(level, mod, base, names[1..], fileset);
    }
  }

  /** What a name imported from the package `base` stands for: a module there, else the package itself. */
  function Imported(base: seq<string>, name: string, fileset: set<File>): Option<File> {
    if Resolve(base + [name], fileset).Some? then Resolve(base + [name], fileset)
    else if base != [] then Resolve(base, fileset)
    else None
  }

  /**
   How an absolute import counts: as static if it is found or its first part names something at the top of the
   repository, where it should have been found, and as external otherwise.
   */
  ghost function AbsoluteKind(target: Option<File>, parts: seq<string>, fileset: set<File>): string {
    if target.Some? || (parts != [] && exists f <- fileset :: TopLevelName(f) == parts[0]) then "static" else "external"
  }

  lemma UnresolvedKindIff(parts: seq<string>, fileset: set<File>)
    ensures UnresolvedKind(parts, TopLevelNames(fileset)) == AbsoluteKind(None, parts, fileset)
  {
    if parts != [] && exists f <- fileset :: TopLevelName(f) == parts[0] {
      var f :| f in fileset && TopLevelName(f) == parts[0];
      assert TopLevelName(f) in TopLevelNames(fileset);
    }
  }

  /** A module wins over a package, a package over a stub of the module, and that over a stub of the package. */
  lemma ResolveIff(parts: seq<string>, fileset: set<File>, f: File)
    ensures var base := Join(parts, "/");
      Resolve(parts, fileset) == Some(f) <==>
        && f in fileset
        && (f == File(base + ".py")
            || (f == File(base + "/__init__.py") && File(base + ".py") !in fileset)
            || (f == File(base + ".pyi") && File(base + ".py") !in fileset && File(base + "/__init__.py") !in fileset)
            || (f == File(base + "/__init__.pyi") && File(base + ".py") !in fileset
                && File(base + "/__init__.py") !in fileset && File(base + ".pyi") !in fileset))
  {
    var base := Join(parts, "/");
    EndsDiffer(base, ".py", "/__init__.py");
    EndsDiffer(base, ".py", ".pyi");
    EndsDiffer(base, ".py", "/__init__.pyi");
    EndsDiffer(base, "/__init__.py", ".pyi");
    EndsDiffer(base, "/__init__.py", "/__init__.pyi");
    EndsDiffer(base, ".pyi", "/__init__.pyi");
  }

  lemma EndsDiffer(base: string, a: string, b: string)
    requires |a| != |b|
    ensures base + a != base + b
  {
    assert |base + a| != |base + b|;
  }

  /** The name a file goes by at the top of the repository: its first directory, or at the root its stem. */
  lemma TopLevelNameIs(package: seq<string>, name: string)
    requires Plain(package) && '/' !in name
    ensures TopLevelName(File(Join(package + [name], "/"))) == if package != [] then package[0] else Stem(name)
  {
    PlainWith(package, name);
    SplitJoin(package + [name]);
  }

  lemma {:induction false} StemIs(stem: string, end: string)
    requires '.' !in end
    ensures Stem(stem + ("." + end)) == stem && Stem(end) == end
    decreases |end|
  {
    var name := stem + ("." + end);
    assert name[|stem|] == '.';
    if end == "" {
      assert name[..|name| - 1] == stem;
    } else {
      var n := |end| - 1;
      assert end[n] in end && name[|name| - 1] == end[n];
      assert forall x <- end[..n] :: x in end;
      assert name[..|name| - 1] == stem + ("." + end[..n]);
      StemIs(stem, end[..n]);
    }
  }

  ghost predicate NamedAt(q: seq<Import>, names: seq<seq<string>>, fileset: set<File>, i: nat)
    requires i < |names| == |q|
  {
    var target := Resolve(names[i], fileset);
    q[i] == Import(AbsoluteKind(target, names[i], fileset), target, Some(Join(names[i], ".")))
  }

  ghost predicate EachNamed(q: seq<Import>, names: seq<seq<string>>, fileset: set<File>) {
    |q| == |names| && forall i: nat :: i < |names| ==> NamedAt(q, names, fileset, i)
  }

  lemma {:induction false} NamesEdgesAre(names: seq<seq<string>>, fileset: set<File>)
    ensures EachNamed(NamesEdges(names, fileset), names, fileset)
  {
    if names != [] {
      NamesEdgesAre(names[1..], fileset);
      UnresolvedKindIff(names[0], fileset);
      var q, rest := NamesEdges(names, fileset), NamesEdges(names[1..], fileset);
      forall i: nat | i < |names| ensures NamedAt(q, names, fileset, i) {
        if i > 0 {
          assert NamedAt(rest, names[1..], fileset, i - 1);
          assert q[i] == rest[i - 1] && names[i] == names[1..][i - 1];
        }
      }
    }
  }

  /** Each name imported from an absolute module, by itself. */
  ghost predicate EachFrom(q: seq<Import>, mod: seq<string>, names: seq<string>, fileset: set<File>) {
    && |q| == |names|
    && forall i :: 0 <= i < |names| ==>
      var target := Imported(mod, names[i], fileset);
      q[i] == Import(AbsoluteKind(target, mod, fileset), target, Some(FromName(0, mod, names[i])))
  }

  lemma FromRootAre(mod: seq<string>, names: seq<string>, fileset: set<File>)
    ensures EachFrom(FromEdges(0, mod, mod, names, fileset), mod, names, fileset)
  {
    FromEdgesLength(0, mod, mod, names, fileset);
    var q := FromEdges(0, mod, mod, names, fileset);
    forall i | 0 <= i < |names|
      ensures var target := Imported(mod, names[i], fileset);
        q[i] == Import(AbsoluteKind(target, mod, fileset), target, Some(FromName(0, mod, names[i])))
    {
      FromEdgesAt(0, mod, mod, names, fileset, i);
    }
  }

  /** What is known of a file: nothing but its name if it does not parse, and says so; else what its statements say. */
  lemma FactsAre(parse: Parser, file: File, source: string, fileset: set<File>)
    ensures var facts := FactsOf(parse, file, source, fileset);
      && (facts.parseError <==> parse(source).SyntaxError?)
      && (facts.entrypoint <==> EntrypointName(file) || (parse(source).Tree? && parse(source).decorated))
      && facts.imports == if parse(source).Tree? then TreeEdges(parse(source).statements, file, fileset) else []
  {
  }

  /** Every statement yields its imports, in the order of the statements. */
  lemma {:induction false} TreeEdgesAt(statements: seq<Statement>, file: File, fileset: set<File>, i: nat)
    requires i < |statements|
    ensures TreeEdges(statements, file, fileset)
      == TreeEdges(statements[..i], file, fileset)
        + (StatementEdges(statements[i], file, fileset) + TreeEdges(statements[i + 1..], file, fileset))
  {
    var first := StatementEdges(statements[0], file, fileset);
    if i == 0 {
      assert statements[..0] == [];
    } else {
      TreeEdgesAt(statements[1..], file, fileset, i - 1);
      assert statements[1..][..i - 1] == statements[..i][1..] && statements[1..][i..] == statements[i + 1..];
      Regroup(first, TreeEdges(statements[1..i], file, fileset),
              StatementEdges(statements[i], file, fileset) + TreeEdges(statements[i + 1..], file, fileset));
      assert statements[1..][..i - 1] == statements[1..i];
    }
  }

  /** Which files are entrypoints by name, wherever they lie. */
  lemma EntrypointNameIs(package: seq<string>, name: string)
    requires Plain(package) && '/' !in name
    ensures EntrypointName(File(Join(package + [name], "/"))) <==>
      name == "__init__.py" || name == "__main__.py" || name == "main.py" || "handle" <= name
  {
    PlainWith(package, name);
    SplitJoin(package + [name]);
  }

  /**
   An absolute import, with each name by itself: what it resolves to from the root, and whether it should have. A name
   imported from a module is a module below it or the module itself; a wildcard is the module.
   */
  lemma AbsoluteImportResolves(file: File, dotted: seq<seq<string>>, mod: seq<string>, names: seq<string>,
                               fileset: set<File>)
    ensures EachNamed(StatementEdges(ImportNames(dotted), file, fileset), dotted, fileset)
    ensures var q := StatementEdges(FromImport(0, mod, names), file, fileset);
      if "*" in names then
        q == [Import("wildcard", if mod == [] then None else Resolve(mod, fileset), Some(FromName(0, mod, "*")))]
      else EachFrom(q, mod, names, fileset)
  {
    NamesEdgesAre(dotted, fileset);
    FromRootAre(mod, names, fileset);
    assert [] + mod == mod;
  }

  lemma AnchorClimbs(package: seq<string>, name: string, level: nat)
    requires level > 0 && Plain(package) && '/' !in name
    ensures RelativeAnchor(File(Join(package + [name], "/")), level)
         == if level > |package| + 1 then None else Some(package[..|package| + 1 - level])
  {
    PlainWith(package, name);
    SplitJoin(package + [name]);
    AnchorOf(File(Join(package + [name], "/")), package, name, level);
  }

  lemma PlainWith(package: seq<string>, name: string)
    requires Plain(package) && '/' !in name
    ensures Plain(package + [name])
  {
    forall p | p in package + [name] ensures '/' !in p {
    }
  }

  lemma AnchorOf(file: File, package: seq<string>, name: string, level: nat)
    requires level > 0 && Split(file.path) == package + [name]
    ensures RelativeAnchor(file, level) == if level > |package| + 1 then None
      else Some(package[..|package| + 1 - level])
  {
    var parts := package + [name];
    assert parts[..|parts| - 1] == package;
  }

  /** Each name of an import without a wildcard is looked for by itself. */
  ghost predicate EachImported(q: seq<Import>, base: seq<string>, names: seq<string>, fileset: set<File>) {
    && |q| == |names|
    && forall i :: 0 <= i < |names| ==> q[i].kind == "relative" && q[i].target == Imported(base, names[i], fileset)
  }

  lemma FromEdgesAre(level: nat, mod: seq<string>, base: seq<string>, names: seq<string>, fileset: set<File>)
    requires level > 0
    ensures EachImported(FromEdges(level, mod, base, names, fileset), base, names, fileset)
  {
    if names != [] {
      FromEdgesAt(level, mod, base, names, fileset, 0);
    }
    var q := FromEdges(level, mod, base, names, fileset);
    forall i | 0 <= i < |names| ensures q[i].kind == "relative" && q[i].target == Imported(base, names[i], fileset) {
      FromEdgesAt(level, mod, base, names, fileset, i);
    }
  }

  /**
   A relative import written in a file of the package `package` climbs one package less than it has dots; there, below
   its module part, each of its names is looked for by itself. With more dots than packages it finds nothing.
   */
  lemma RelativeImportResolves(package: seq<string>, name: string, level: nat, mod: seq<string>, names: seq<string>,
                               fileset: set<File>)
    requires level > 0 && Plain(package) && '/' !in name
    ensures
      var q := StatementEdges(FromImport(level, mod, names), File(Join(package + [name], "/")), fileset);
      if level > |package| + 1 then |q| == 1 && q[0].target.None?
      else
        var base := package[..|package| + 1 - level] + mod;
        if "*" in names then
          |q| == 1 && q[0].kind == "wildcard" && q[0].target == if base == [] then None else Resolve(base, fileset)
        else EachImported(q, base, names, fileset)
  {
    AnchorClimbs(package, name, level);
    if level <= |package| + 1 {
      FromEdgesAre(level, mod, package[..|package| + 1 - level] + mod, names, fileset);
    }
  }
}
