/** The syntax-tree walk over the build script that collects extension module names: the
    first argument of every `Extension(...)`/`addMacExtension(...)` call that is a string
    literal, and the string elements of a list assigned to `CARBON_EXTS`. */
module Visitor {

  /** The part of a concrete syntax tree the visitor looks at.  A `SimpleString` carries its
      evaluated value; a call's arguments are their value expressions (the pattern looks at
      the value whether the argument is positional or by keyword); every other kind of node
      is an `Other` with its children in order. */
  datatype Node =
    | Name(id: string)
    | SimpleString(evaluated: string)
    | Call(func: Node, args: seq<Node>)
    | Assign(targets: seq<Node>, value: Node)
    | List(elements: seq<Node>)
    | Other(children: seq<Node>)

  /** The callees whose first argument names an extension module. */
  predicate IsExtensionCallee(func: Node) {
    func == Name("Extension") || func == Name("addMacExtension")
  }

  /** What `visit_Call` records for a call. */
  function CallNames(func: Node, args: seq<Node>): seq<string> {
    if IsExtensionCallee(func) && |args| > 0 && args[0].SimpleString? then
      [args[0].evaluated]
    else
      []
  }

  /** The values of the string literals among `elements`, in order. */
  function StringElements(elements: seq<Node>): seq<string> {
    if |elements| == 0 then []
    else
      (if elements[0].SimpleString? then [elements[0].evaluated] else []) + StringElements(elements[1..])
  }

  /** `visit_Assign`'s pattern: a single target `CARBON_EXTS` and a list as the value. */
  predicate IsCarbonList(targets: seq<Node>, value: Node) {
    |targets| == 1 && targets[0] == Name("CARBON_EXTS") && value.List?
  }

  /** What `visit_Assign` records for an assignment. */
  function AssignNames(targets: seq<Node>, value: Node): seq<string> {
    if IsCarbonList(targets, value) then StringElements(value.elements) else []
  }

  /** The names a walk of the tree records, in the order it records them: a node's own
      contribution before its children's, children from left to right. */
  function Collected(n: Node): seq<string>
    decreases n, 2
  {
    match n
    case Name(_) => []
    case SimpleString(_) => []
    case Call(func, args) => CallNames(func, args) + Collected(func) + CollectedAll(args)
    case Assign(targets, value) => AssignNames(targets, value) + CollectedAll(targets) + Collected(value)
    case List(elements) => CollectedAll(elements)
    case Other(children) => CollectedAll(children)
  }

  function CollectedAll(ns: seq<Node>): seq<string>
    decreases ns, 1
  {
    if |ns| == 0 then [] else Collected(ns[0]) + CollectedAll(ns[1..])
  }

  /** The values of all string literals anywhere in the tree. */
  function Literals(n: Node): set<string>
    decreases n, 2
  {
    match n
    case Name(_) => {}
    case SimpleString(v) => {v}
    case Call(func, args) => Literals(func) + LiteralsAll(args)
    case Assign(targets, value) => LiteralsAll(targets) + Literals(value)
    case List(elements) => LiteralsAll(elements)
    case Other(children) => LiteralsAll(children)
  }

  function LiteralsAll(ns: seq<Node>): set<string>
    decreases ns, 1
  {
    if |ns| == 0 then {} else Literals(ns[0]) + LiteralsAll(ns[1..])
  }

  /** The visitor object: its only state is the list of names recorded so far. */
  class ExtensionVisitor {
    var extensionNames: seq<string>

    constructor ()
      ensures extensionNames == []
    {
      extensionNames := [];
    }

    method VisitCall(func: Node, args: seq<Node>)
      modifies this
      ensures extensionNames == old(extensionNames) + CallNames(func, args)
    {
      if IsExtensionCallee(func) && |args| > 0 && args[0].SimpleString? {
        extensionNames := extensionNames + [args[0].evaluated];
      }
    }

    method VisitAssign(targets: seq<Node>, value: Node)
      modifies this
      ensures extensionNames == old(extensionNames) + AssignNames(targets, value)
    {
      if IsCarbonList(targets, value) {
        var items := value.elements;
        var i := 0;
        while i < |items|
          invariant i <= |items|
          invariant extensionNames == old(extensionNames) + StringElements(items[..i])
        {
          StringElementsAppend(items[..i], items[i]);
          assert items[..i + 1] == items[..i] + [items[i]];
          if items[i].SimpleString? {
            extensionNames := extensionNames + [items[i].evaluated];
          }
          i := i + 1;
        }
        assert items[..i] == items;
      }
    }

    /** `module.visit(ev)`: the pre-order walk that calls the two handlers. */
    method Visit(n: Node)
      modifies this
      ensures extensionNames == old(extensionNames) + Collected(n)
      decreases n, 2
    {
      match n
      case Name(_) =>
      case SimpleString(_) =>
      case Call(func, args) =>
        ghost var before := extensionNames;
        VisitCall(func, args);
        Visit(func);
        VisitAll(args);
        Assoc3(before, CallNames(func, args), Collected(func), CollectedAll(args));
      case Assign(targets, value) =>
        ghost var before := extensionNames;
        VisitAssign(targets, value);
        VisitAll(targets);
        Visit(value);
        Assoc3(before, AssignNames(targets, value), CollectedAll(targets), Collected(value));
      case List(elements) =>
        VisitAll(elements);
      case Other(children) =>
        VisitAll(children);
    }

    method VisitAll(ns: seq<Node>)
      modifies this
      ensures extensionNames == old(extensionNames) + CollectedAll(ns)
      decreases ns, 1
    {
      if |ns| > 0 {
        ghost var before := extensionNames;
        Visit(ns[0]);
        VisitAll(ns[1..]);
        assert (before + Collected(ns[0])) + CollectedAll(ns[1..]) == before + (Collected(ns[0]) + CollectedAll(ns[1..]));
      }
    }

  }

  /** Appending three lists one after the other appends their concatenation. */
  lemma Assoc3(a: seq<string>, b: seq<string>, c: seq<string>, d: seq<string>)
    ensures a + b + c + d == a + (b + c + d)
  {
  }

  /** The names `regen` starts from: a fresh visitor's list after walking the module. */
  method ExtensionNames(tree: Node) returns (names: seq<string>)
    ensures names == Collected(tree)
  {
    var ev := new ExtensionVisitor();
    ev.Visit(tree);
    names := ev.extensionNames;
  }

  /** A call contributes a name exactly when its callee is `Extension` or `addMacExtension`
      and its first argument, positional or not, is a string literal; the name is that
      literal's value. */
  lemma CallNamesIff(func: Node, args: seq<Node>)
    ensures |CallNames(func, args)| <= 1
    ensures CallNames(func, args) != [] <==>
      (func == Name("Extension") || func == Name("addMacExtension")) &&
      |args| > 0 && args[0].SimpleString?
    ensures CallNames(func, args) != [] ==> CallNames(func, args) == [args[0].evaluated]
  {
  }

  /** Recording one more list element appends its value if it is a string literal. */
  lemma {:induction false} StringElementsAppend(elements: seq<Node>, e: Node)
    ensures StringElements(elements + [e]) ==
      StringElements(elements) + (if e.SimpleString? then [e.evaluated] else [])
  {
    if |elements| > 0 {
      StringElementsAppend(elements[1..], e);
      assert (elements + [e])[1..] == elements[1..] + [e];
    } else {
      assert [e][1..] == [];
    }
  }

  /** The names taken from a `CARBON_EXTS` list are the values of its string elements, in
      list order; all other elements are skipped. */
  lemma {:induction false} StringElementsCorrect(elements: seq<Node>)
    ensures |StringElements(elements)| <= |elements|
    ensures forall v :: v in StringElements(elements) <==>
      exists k | 0 <= k < |elements| :: elements[k] == SimpleString(v)
  {
    if |elements| > 0 {
      StringElementsCorrect(elements[1..]);
      forall v ensures v in StringElements(elements) <==>
        exists k | 0 <= k < |elements| :: elements[k] == SimpleString(v)
      {
        if exists k | 0 <= k < |elements[1..]| :: elements[1..][k] == SimpleString(v) {
          var k :| 0 <= k < |elements[1..]| && elements[1..][k] == SimpleString(v);
          assert elements[k + 1] == SimpleString(v);
        }
        if exists k | 0 <= k < |elements| :: elements[k] == SimpleString(v) {
          var k :| 0 <= k < |elements| && elements[k] == SimpleString(v);
          if k > 0 { assert elements[1..][k - 1] == SimpleString(v); }
        }
      }
    }
  }

  /** A list of only string literals contributes every one of them, in order. */
  lemma {:induction false} StringElementsOfStrings(values: seq<string>, elements: seq<Node>)
    requires |elements| == |values|
    requires forall k | 0 <= k < |values| :: elements[k] == SimpleString(values[k])
    ensures StringElements(elements) == values
  {
    if |values| > 0 {
      StringElementsOfStrings(values[1..], elements[1..]);
      assert values == [values[0]] + values[1..];
    }
  }

  /** An assignment other than a single `CARBON_EXTS = [...]` records nothing of its own. */
  lemma AssignNamesIff(targets: seq<Node>, value: Node)
    ensures AssignNames(targets, value) != [] ==> IsCarbonList(targets, value)
    ensures IsCarbonList(targets, value) ==> AssignNames(targets, value) == StringElements(value.elements)
  {
  }

  /** Whatever the walk records is the value of some string literal of the tree. */
  lemma {:induction false} CollectedAreLiterals(n: Node)
    ensures forall v | v in Collected(n) :: v in Literals(n)
    decreases n, 2
  {
    match n
    case Name(_) =>
    case SimpleString(_) =>
    case Call(func, args) =>
      CollectedAreLiterals(func);
      CollectedAllAreLiterals(args);
      if |args| > 0 && args[0].SimpleString? {
        assert Literals(args[0]) <= LiteralsAll(args);
      }
    case Assign(targets, value) =>
      CollectedAllAreLiterals(targets);
      CollectedAreLiterals(value);
      if IsCarbonList(targets, value) {
        StringElementsCorrect(value.elements);
        forall v | v in StringElements(value.elements) ensures v in Literals(value) {
          var k :| 0 <= k < |value.elements| && value.elements[k] == SimpleString(v);
          LiteralOfElement(value.elements, k);
        }
      }
    case List(elements) =>
      CollectedAllAreLiterals(elements);
    case Other(children) =>
      CollectedAllAreLiterals(children);
  }

  lemma {:induction false} CollectedAllAreLiterals(ns: seq<Node>)
    ensures forall v | v in CollectedAll(ns) :: v in LiteralsAll(ns)
    decreases ns, 1
  {
    if |ns| > 0 {
      CollectedAreLiterals(ns[0]);
      CollectedAllAreLiterals(ns[1..]);
    }
  }

  /** The literals of an element of a sequence are literals of the sequence. */
  lemma {:induction false} LiteralOfElement(ns: seq<Node>, k: nat)
    requires k < |ns|
    ensures Literals(ns[k]) <= LiteralsAll(ns)
  {
    if k > 0 {
      LiteralOfElement(ns[1..], k - 1);
      assert ns[1..][k - 1] == ns[k];
    }
  }

  lemma CollectedAllCons(n: Node, ns: seq<Node>)
    ensures CollectedAll([n] + ns) == Collected(n) + CollectedAll(ns)
  {
    assert ([n] + ns)[1..] == ns;
  }

  /** A node's own names are recorded before any name found below it: a call before the
      calls nested in its callee and arguments, an assignment before those in its targets and
      value. */
  lemma OwnNamesFirst(n: Node)
    ensures n.Call? ==>
      var own := CallNames(n.func, n.args);
      |own| <= |Collected(n)| && Collected(n)[..|own|] == own &&
      Collected(n)[|own|..] == Collected(n.func) + CollectedAll(n.args)
    ensures n.Assign? ==>
      var own := AssignNames(n.targets, n.value);
      |own| <= |Collected(n)| && Collected(n)[..|own|] == own &&
      Collected(n)[|own|..] == CollectedAll(n.targets) + Collected(n.value)
  {
    match n
    case Call(func, args) =>
      var own, rest := CallNames(func, args), Collected(func) + CollectedAll(args);
      assert Collected(n) == own + rest;
    case Assign(targets, value) =>
      var own, rest := AssignNames(targets, value), CollectedAll(targets) + Collected(value);
      assert Collected(n) == own + rest;
    case _ =>
  }

  /** `m` is `n` or a node somewhere below it. */
  predicate Occurs(m: Node, n: Node)
    decreases n, 2
  {
    m == n ||
    match n
    case Name(_) => false
    case SimpleString(_) => false
    case Call(func, args) => Occurs(m, func) || OccursIn(m, args)
    case Assign(targets, value) => OccursIn(m, targets) || Occurs(m, value)
    case List(elements) => OccursIn(m, elements)
    case Other(children) => OccursIn(m, children)
  }

  predicate OccursIn(m: Node, ns: seq<Node>)
    decreases ns, 1
  {
    |ns| > 0 && (Occurs(m, ns[0]) || OccursIn(m, ns[1..]))
  }

  /** The node `m` matches one of the two patterns with the name `v`: an `Extension` or
      `addMacExtension` call whose first argument is the literal `v`, or a single-target
      `CARBON_EXTS` assignment of a list that holds the literal `v`. */
  predicate RecordsOwn(m: Node, v: string) {
    (m.Call? && IsExtensionCallee(m.func) && |m.args| > 0 && m.args[0] == SimpleString(v)) ||
    (m.Assign? && IsCarbonList(m.targets, m.value) && SimpleString(v) in m.value.elements)
  }

  /** What a node records of its own is what it matches. */
  lemma OwnNamesIff(n: Node, v: string)
    ensures n.Call? ==> (v in CallNames(n.func, n.args) <==> RecordsOwn(n, v))
    ensures n.Assign? ==> (v in AssignNames(n.targets, n.value) <==> RecordsOwn(n, v))
    ensures !n.Call? && !n.Assign? ==> !RecordsOwn(n, v)
  {
    if n.Assign? && IsCarbonList(n.targets, n.value) {
      StringElementsCorrect(n.value.elements);
    }
  }

  /** The walk records a name exactly when some node of the tree matches one of the two
      patterns with that name. */
  lemma {:induction false} CollectedIff(n: Node, v: string)
    ensures v in Collected(n) <==> exists m :: Occurs(m, n) && RecordsOwn(m, v)
    decreases n, 2
  {
    OwnNamesIff(n, v);
    match n
    case Name(_) =>
    case SimpleString(_) =>
    case Call(func, args) =>
      CollectedIff(func, v);
      CollectedAllIff(args, v);
      if v in Collected(n) {
        if v in CallNames(func, args) {
          assert Occurs(n, n) && RecordsOwn(n, v);
        } else if v in Collected(func) {
          var m :| Occurs(m, func) && RecordsOwn(m, v);
          assert Occurs(m, n);
        } else {
          var m :| OccursIn(m, args) && RecordsOwn(m, v);
          assert Occurs(m, n);
        }
      }
    case Assign(targets, value) =>
      CollectedAllIff(targets, v);
      CollectedIff(value, v);
      if v in Collected(n) {
        if v in AssignNames(targets, value) {
          assert Occurs(n, n) && RecordsOwn(n, v);
        } else if v in CollectedAll(targets) {
          var m :| OccursIn(m, targets) && RecordsOwn(m, v);
          assert Occurs(m, n);
        } else {
          var m :| Occurs(m, value) && RecordsOwn(m, v);
          assert Occurs(m, n);
        }
      }
    case List(elements) =>
      CollectedAllIff(elements, v);
      if v in Collected(n) {
        var m :| OccursIn(m, elements) && RecordsOwn(m, v);
        assert Occurs(m, n);
      }
    case Other(children) =>
      CollectedAllIff(children, v);
      if v in Collected(n) {
        var m :| OccursIn(m, children) && RecordsOwn(m, v);
        assert Occurs(m, n);
      }
  }

  lemma {:induction false} CollectedAllIff(ns: seq<Node>, v: string)
    ensures v in CollectedAll(ns) <==> exists m :: OccursIn(m, ns) && RecordsOwn(m, v)
    decreases ns, 1
  {
    if |ns| > 0 {
      CollectedIff(ns[0], v);
      CollectedAllIff(ns[1..], v);
      if v in CollectedAll(ns) {
        if v in Collected(ns[0]) {
          var m :| Occurs(m, ns[0]) && RecordsOwn(m, v);
          assert OccursIn(m, ns);
        } else {
          var m :| OccursIn(m, ns[1..]) && RecordsOwn(m, v);
          assert OccursIn(m, ns);
        }
      }
    }
  }

  /** An instance of `OwnNamesFirst`: `Extension("a", sources=f(addMacExtension("b")))`
      records `a`, then `b`. */
  lemma NestedCalls(a: string, b: string, f: string)
    ensures Collected(Call(Name("Extension"),
      [SimpleString(a), Call(Name(f), [Call(Name("addMacExtension"), [SimpleString(b)])])])) == [a, b]
  {
    var inner := Call(Name("addMacExtension"), [SimpleString(b)]);
    assert Collected(inner) == [b] by {
      assert CollectedAll([SimpleString(b)]) == [];
    }
    var middle := Call(Name(f), [inner]);
    assert Collected(middle) == [b] by {
      assert CallNames(Name(f), [inner]) == [] by {
        assert !inner.SimpleString?;
      }
      assert CollectedAll([inner]) == [b];
    }
    CollectedAllCons(SimpleString(a), [middle]);
    assert [SimpleString(a), middle] == [SimpleString(a)] + [middle];
  }

  /** `CARBON_EXTS = ["a", name, "b"]` records `a` and `b` and skips the non-literal element. */
  lemma CarbonList(a: string, b: string, x: string)
    ensures Collected(Assign([Name("CARBON_EXTS")], List([SimpleString(a), Name(x), SimpleString(b)]))) == [a, b]
  {
    var es := [SimpleString(a), Name(x), SimpleString(b)];
    StringElementsOfStrings([b], es[2..]);
    assert es[1..][1..] == es[2..];
    assert StringElements(es) == [a, b];
    CollectedAllCons(SimpleString(b), []);
    CollectedAllCons(Name(x), [SimpleString(b)]);
    CollectedAllCons(SimpleString(a), [Name(x), SimpleString(b)]);
    assert es == [SimpleString(a)] + ([Name(x)] + ([SimpleString(b)] + []));
    assert CollectedAll([Name("CARBON_EXTS")]) == [];
  }

  /** A chained assignment `x = CARBON_EXTS = [...]` has two targets and records nothing. */
  lemma CarbonChained(a: string, x: string)
    ensures Collected(Assign([Name(x), Name("CARBON_EXTS")], List([SimpleString(a)]))) == []
  {
    CollectedAllCons(Name("CARBON_EXTS"), []);
    CollectedAllCons(Name(x), [Name("CARBON_EXTS")]);
    assert [Name(x), Name("CARBON_EXTS")] == [Name(x)] + ([Name("CARBON_EXTS")] + []);
    assert CollectedAll([SimpleString(a)]) == [];
  }
}
