/** Grammar loading, the constructor of Parser: the `grammar` root, its
    namespace-prefix map, its first `start` child and its define table. */
module Grammar {
  import opened Results
  import opened Xml
  import opened SchemaElements

  /** The loader's outcome as values: the define table maps each name to the
      `define` node whose XsElement the parser stores under that name. */
  datatype Loaded = Loaded(grammar: Node, start: Node, defines: map<string, Node>, nsMap: map<string, string>)

  /** The prefix map the loader fills from the root's attributes:
      each namespace declaration in turn writes its local name. */
  function NamespaceMap(attributes: seq<Attr>): (m: map<string, string>)
  {
    if attributes == [] then map[]
    else
      var a := attributes[|attributes| - 1];
      var m := NamespaceMap(attributes[..|attributes| - 1]);
      if IsNamespaceDeclaration(a) then m[a.localName := a.value] else m
  }

  /** The `name` attribute of a define. */
  function DeclaredName(d: Node): (r: Option<string>)
  {
    AttributeValue(d.attributes, "name")
  }

  /** The define table filled from the `define` children in order: each one
      installs or silently replaces the entry under its name; one without a
      `name` attribute aborts loading. */
  function DefineTable(defines: seq<Node>): (r: Result<map<string, Node>>)
  {
    if defines == [] then Success(map[])
    else
      var d := defines[|defines| - 1];
      match DefineTable(defines[..|defines| - 1])
      case Failure(e) => Failure(e)
      case Success(m) =>
        match DeclaredName(d)
        case None => Failure(DefineWithoutName)
        case Some(name) => Success(m[name := d])
  }

  /** The outcome of constructing a Parser from a document whose root is `document`. */
  function Load(document: Node): (r: Result<Loaded>)
  {
    if !Named(document, "grammar") then Failure(NoGrammar)
    else
      match FirstElement(document.children, "start")
      case None => Failure(NoStart)
      case Some(start) =>
        match DefineTable(Elements(document.children, "define"))
        case Failure(e) => Failure(e)
        case Success(table) => Success(Loaded(document, start, table, NamespaceMap(document.attributes)))
  }

  // ---------------------------------------------------------------------------
  // Namespace prefixes

  /** The prefixes in the map are exactly those the root declares. */
  lemma {:induction false} NamespaceMapKeys(attributes: seq<Attr>)
    ensures NamespaceMap(attributes).Keys ==
              set a | a in attributes && IsNamespaceDeclaration(a) :: a.localName
  {
    if attributes != [] {
      var front := attributes[..|attributes| - 1];
      NamespaceMapKeys(front);
      assert attributes == front + [attributes[|attributes| - 1]];
    }
  }

  /** A prefix maps to the value of its last declaration: a later declaration
      of the same prefix overwrites an earlier one. */
  lemma {:induction false} NamespaceMapLastWins(attributes: seq<Attr>, i: nat)
    requires i < |attributes| && IsNamespaceDeclaration(attributes[i])
    requires forall j :: i < j < |attributes| ==>
               !(IsNamespaceDeclaration(attributes[j]) && attributes[j].localName == attributes[i].localName)
    ensures attributes[i].localName in NamespaceMap(attributes)
    ensures NamespaceMap(attributes)[attributes[i].localName] == attributes[i].value
  {
    if i < |attributes| - 1 {
      NamespaceMapLastWins(attributes[..|attributes| - 1], i);
    }
  }

  // ---------------------------------------------------------------------------
  // The define table

  /** Loading fails exactly when some define has no name, and then for that reason. */
  lemma {:induction false} DefineTableFails(defines: seq<Node>)
    ensures DefineTable(defines).Failure? <==> exists i :: 0 <= i < |defines| && DeclaredName(defines[i]).None?
    ensures DefineTable(defines).Failure? ==> DefineTable(defines).error == DefineWithoutName
  {
    if defines != [] {
      var front := defines[..|defines| - 1];
      DefineTableFails(front);
      if DefineTable(front).Failure? {
        var i :| 0 <= i < |front| && DeclaredName(front[i]).None?;
        assert defines[i] == front[i];
      } else if DeclaredName(defines[|defines| - 1]).Some? {
        forall i | 0 <= i < |defines|
          ensures DeclaredName(defines[i]).Some?
        {
          if i < |front| {
            assert defines[i] == front[i];
          }
        }
      }
    }
  }

  /** The keys of the table are exactly the names of the defines. */
  lemma {:induction false} DefineTableKeys(defines: seq<Node>)
    requires DefineTable(defines).Success?
    ensures DefineTable(defines).value.Keys ==
              set d | d in defines && DeclaredName(d).Some? :: DeclaredName(d).value
  {
    if defines != [] {
      var front := defines[..|defines| - 1];
      DefineTableKeys(front);
      assert defines == front + [defines[|defines| - 1]];
    }
  }

  /** Each name maps to the last define that carries it. */
  lemma {:induction false} DefineTableLastWins(defines: seq<Node>, i: nat)
    requires DefineTable(defines).Success?
    requires i < |defines|
    requires forall j :: i < j < |defines| ==> DeclaredName(defines[j]) != DeclaredName(defines[i])
    ensures DeclaredName(defines[i]).Some?
    ensures DeclaredName(defines[i]).value in DefineTable(defines).value
    ensures DefineTable(defines).value[DeclaredName(defines[i]).value] == defines[i]
  {
    var front := defines[..|defines| - 1];
    if i < |defines| - 1 {
      DefineTableLastWins(front, i);
    }
  }

  /** A failure on a prefix of the defines is the failure of the whole table. */
  lemma {:induction false} DefineTableFailurePersists(defines: seq<Node>, n: nat)
    requires n <= |defines| && DefineTable(defines[..n]).Failure?
    ensures DefineTable(defines) == DefineTable(defines[..n])
  {
    if n < |defines| {
      var front := defines[..|defines| - 1];
      assert front[..n] == defines[..n];
      DefineTableFailurePersists(front, n);
    } else {
      assert defines[..n] == defines;
    }
  }

  // ---------------------------------------------------------------------------
  // Loading

  /** When and why loading fails: the root is not `grammar`, or it has no
      `start` child, or one of its `define` children has no `name`. */
  lemma LoadFails(document: Node)
    ensures !Named(document, "grammar") ==> Load(document) == Failure(NoGrammar)
    ensures Named(document, "grammar") && FirstElement(document.children, "start").None? ==>
              Load(document) == Failure(NoStart)
    ensures Named(document, "grammar") && FirstElement(document.children, "start").Some? ==>
              (Load(document).Failure? <==>
                 exists d :: d in document.children && Named(d, "define") && DeclaredName(d).None?)
    ensures Load(document).Failure? ==> Load(document).error in {NoGrammar, NoStart, DefineWithoutName}
    ensures Named(document, "grammar") && FirstElement(document.children, "start").Some? && Load(document).Failure? ==>
              Load(document).error == DefineWithoutName
  {
    var defines := Elements(document.children, "define");
    DefineTableFails(defines);
    forall d
      ensures d in defines <==> d in document.children && Named(d, "define")
    {
      ElementsMembers(document.children, "define", d);
    }
  }

  /** A successful load keeps the root, takes the first `start` child, and reads
      its maps from the namespace declarations and the named defines. */
  lemma LoadSucceeds(document: Node)
    requires Load(document).Success?
    ensures var g := Load(document).value;
      && g.grammar == document
      && FirstIndex(document.children, "start") < |document.children|
      && g.start == document.children[FirstIndex(document.children, "start")]
      && (forall j :: 0 <= j < FirstIndex(document.children, "start") ==> !Named(document.children[j], "start"))
      && g.nsMap.Keys == (set a | a in document.attributes && IsNamespaceDeclaration(a) :: a.localName)
      && g.defines.Keys == (set d | d in document.children && Named(d, "define") && DeclaredName(d).Some? :: DeclaredName(d).value)
  {
    var defines := Elements(document.children, "define");
    NamespaceMapKeys(document.attributes);
    DefineTableKeys(defines);
    forall d
      ensures d in defines <==> d in document.children && Named(d, "define")
    {
      ElementsMembers(document.children, "define", d);
    }
  }

  /** A schema whose root is in a namespace (as RELAX NG's own namespace puts
      it) is rejected, because the root is looked up by an unqualified name. */
  lemma NamespacedRootRejected(document: Node)
    requires document.ns != ""
    ensures Load(document) == Failure(NoGrammar)
  {
  }

  class Parser {
    var grammar: Node
    var start: Node
    var defines: map<string, XsElement>
    var nsMap: map<string, string>

    constructor Init(grammar: Node, start: Node, defines: map<string, XsElement>, nsMap: map<string, string>)
      ensures this.grammar == grammar && this.start == start
      ensures this.defines == defines && this.nsMap == nsMap
    {
      this.grammar := grammar;
      this.start := start;
      this.defines := defines;
      this.nsMap := nsMap;
    }

    /** The Parser constructor on a loaded document: it either fails for the
        reason Load gives or yields a parser holding Load's grammar, start and
        prefix map, with one XsElement per define name whose node is Load's and
        whose candidate table is exactly {"define": 1}. Every define gets a new
        XsElement, so no two names share a candidate table. */
    static method Create(document: Node) returns (r: Result<Parser>)
      ensures r.Failure? <==> Load(document).Failure?
      ensures r.Failure? ==> r.error == Load(document).error
      ensures r.Success? ==>
        var g := Load(document).value;
        var p := r.value;
        && p.grammar == g.grammar && p.start == g.start && p.nsMap == g.nsMap
        && p.defines.Keys == g.defines.Keys
        && (forall k :: k in p.defines ==>
              p.defines[k].xElement == g.defines[k] && p.defines[k].base.candidates == [("define", 1)])
      ensures r.Success? ==> forall k :: k in r.value.defines ==> fresh(r.value.defines[k]) && fresh(r.value.defines[k].base)
      ensures r.Success? ==> forall k1, k2 :: k1 in r.value.defines && k2 in r.value.defines && k1 != k2 ==>
                r.value.defines[k1].base != r.value.defines[k2].base
    {
      if !Named(document, "grammar") {
        return Failure(NoGrammar);
      }
      var grammar := document;
      var nsMap: map<string, string> := map[];
      for i := 0 to |grammar.attributes|
        invariant nsMap == NamespaceMap(grammar.attributes[..i])
      {
        var a := grammar.attributes[i];
        if IsNamespaceDeclaration(a) {
          nsMap := nsMap[a.localName := a.value];
        }
        assert grammar.attributes[..i + 1][..i] == grammar.attributes[..i];
      }
      assert grammar.attributes[..|grammar.attributes|] == grammar.attributes;
      var start := FirstElement(grammar.children, "start");
      if start.None? {
        return Failure(NoStart);
      }
      var defs := Elements(grammar.children, "define");
      var defines: map<string, XsElement> := map[];
      ghost var table: map<string, Node> := map[];
      for j := 0 to |defs|
        invariant DefineTable(defs[..j]) == Success(table)
        invariant defines.Keys == table.Keys
        invariant forall k :: k in defines ==>
                    defines[k].xElement == table[k] && defines[k].base.candidates == [("define", 1)]
        invariant forall k :: k in defines ==> fresh(defines[k]) && fresh(defines[k].base)
        invariant forall k1, k2 :: k1 in defines && k2 in defines && k1 != k2 ==> defines[k1].base != defines[k2].base
      {
        var d := defs[j];
        assert defs[..j + 1][..j] == defs[..j];
        var name := DeclaredName(d);
        if name.None? {
          DefineTableFailurePersists(defs, j + 1);
          return Failure(DefineWithoutName);
        }
        var e := new XsElement(d);
        defines := defines[name.value := e];
        table := table[name.value := d];
      }
      assert defs[..|defs|] == defs;
      var p := new Parser.Init(grammar, start.value, defines, nsMap);
      r := Success(p);
    }
  }
}
