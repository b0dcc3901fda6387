/** The button component (projects/mekor-lib/src/lib/button/button.component.ts)
    as the abstract syntax tree its text parses to, and what the extractor, the
    renderer and the walker make of it. */
module ButtonExample {
  import opened Wrappers
  import opened Syntax
  import opened Metadata
  import opened Extraction
  import opened Render
  import opened Walker

  /** A leaf the extractor has nothing to do with (a keyword, a name, an import). */
  const Leaf := OtherNode([])

  const InputCall := Call("Input", [])

  /** A property declaration with one decorator. Its name, type and initializer
      hold no declarations, so its children are left out. */
  function Property(name: string, typeText: string, initText: string, d: Decorator): Node
  {
    PropertyDecl(name, Some(typeText), Some(initText), [d], [])
  }

  /** `@Component({...}) export class ButtonComponent { ... }` with its members. */
  function ButtonClass(): Node
  {
    var component := Call("Component", [ObjectLiteral([
      PropertyAssignment("selector", TextLit("mekor-lib-button")),
      PropertyAssignment("imports", OtherInit("[CommonModule]")),
      PropertyAssignment("templateUrl", TextLit("./button.component.html")),
      PropertyAssignment("styleUrl", TextLit("./button.component.scss")),
      PropertyAssignment("standalone", TrueKw)
    ])]);
    // the decorator, `export`, the name; the six properties; the constructor,
    // the three getters and `buttonClicked`
    ClassDecl([component], [Leaf, Leaf, Leaf] + ButtonProperties() + [Leaf, Leaf, Leaf, Leaf, Leaf])
  }

  function ButtonProperties(): seq<Node>
  {
    [ Property("label", "string", "''", InputCall),
      Property("disabled", "boolean", "false", InputCall),
      Property("type", "ButtonType", "ButtonType.Primary", InputCall),
      Property("size", "ButtonSize", "ButtonSize.Medium", InputCall),
      Property("font", "ButtonFontSize", "ButtonFontSize.FS14", InputCall),
      Property("buttonClick", "EventEmitter<any>", "new EventEmitter<any>()", Call("Output", [])) ]
  }

  /** The whole file: two imports, the class, three enums, the end-of-file token. */
  function ButtonFile(): Node
  {
    OtherNode([Leaf, Leaf, ButtonClass(), Leaf, Leaf, Leaf, Leaf])
  }

  function ButtonInput(name: string, typeText: string, initText: string): InputMetadata
  {
    InputMetadata(name, Some(typeText), Some(initText))
  }

  /** The metadata the button's file yields. */
  function ButtonMetadata(): ComponentMetadata
  {
    ComponentMetadata("mekor-lib-button", true, [
      ButtonInput("label", "string", "''"),
      ButtonInput("disabled", "boolean", "false"),
      ButtonInput("type", "ButtonType", "ButtonType.Primary"),
      ButtonInput("size", "ButtonSize", "ButtonSize.Medium"),
      ButtonInput("font", "ButtonFontSize", "ButtonFontSize.FS14")])
  }

  lemma ButtonDecoratorApplied()
    ensures ApplyClassDecorators(Initial, ButtonClass().decorators) == Ok(ComponentMetadata("mekor-lib-button", true, []))
  {
    var ds := ButtonClass().decorators;
    assert ds[..0] == [];
    var ps := ds[0].args[0].props;
    assert ApplyProperties(Initial, ps[..0]) == Ok(Initial);
    assert ps[..1][..0] == ps[..0];
    assert ApplyProperties(Initial, ps[..1]) == Ok(Initial.(selector := "mekor-lib-button"));
    assert ps[..2][..1] == ps[..1];
    assert ApplyProperties(Initial, ps[..2]) == Ok(Initial.(selector := "mekor-lib-button"));
    assert ps[..3][..2] == ps[..2];
    assert ApplyProperties(Initial, ps[..3]) == Ok(Initial.(selector := "mekor-lib-button"));
    assert ps[..4][..3] == ps[..3];
    assert ApplyProperties(Initial, ps[..4]) == Ok(Initial.(selector := "mekor-lib-button"));
    assert ps[..5][..4] == ps[..4];
    assert ApplyProperties(Initial, ps[..5]) == Ok(Initial.(selector := "mekor-lib-button", standalone := true));
    assert ps[..5] == ps;
  }

  lemma PropertyVisited(m: ComponentMetadata, name: string, typeText: string, initText: string, d: Decorator)
    ensures VisitNode(m, Property(name, typeText, initText, d))
         == Ok(if IsCallTo(d, InputMarker) then m.(inputs := m.inputs + [ButtonInput(name, typeText, initText)]) else m)
  {
    var n := Property(name, typeText, initText, d);
    assert [d][..0] == [];
    assert ApplyPropertyDecorators(m, n, [d][..0]) == m;
    var m' := ApplyPropertyDecorators(m, n, [d]);
    assert m' == if IsCallTo(d, InputMarker) then m.(inputs := m.inputs + [ButtonInput(name, typeText, initText)]) else m;
    assert VisitChildren(m', []) == Ok(m');
  }

  /** The selector, `standalone: true`, and the five `@Input()` properties in
      declaration order; `buttonClick` is an `@Output()` and is not listed. */
  lemma ButtonMetadataExtracted()
    ensures Extract(ButtonFile()) == Ok(ButtonMetadata())
  {
    ButtonClassVisited();
    var md := ButtonMetadata();
    var fs := ButtonFile().children;
    assert VisitChildren(Initial, fs[..0]) == Ok(Initial);
    assert fs[..1][..0] == fs[..0];
    assert VisitChildren(Initial, fs[..1]) == Ok(Initial);
    assert fs[..2][..1] == fs[..1];
    assert VisitChildren(Initial, fs[..2]) == Ok(Initial);
    assert fs[..3][..2] == fs[..2];
    assert VisitChildren(Initial, fs[..3]) == Ok(md);
    assert fs[..4][..3] == fs[..3];
    assert VisitChildren(Initial, fs[..4]) == Ok(md);
    assert fs[..5][..4] == fs[..4];
    assert VisitChildren(Initial, fs[..5]) == Ok(md);
    assert fs[..6][..5] == fs[..5];
    assert VisitChildren(Initial, fs[..6]) == Ok(md);
    assert fs[..7][..6] == fs[..6];
    assert VisitChildren(Initial, fs[..7]) == Ok(md);
    assert fs[..7] == fs;
  }

  lemma ChildVisited(m: ComponentMetadata, cs: seq<Node>, k: nat, before: ComponentMetadata, after: ComponentMetadata)
    requires 0 < k <= |cs|
    requires VisitChildren(m, cs[..k - 1]) == Ok(before) && VisitNode(before, cs[k - 1]) == Ok(after)
    ensures VisitChildren(m, cs[..k]) == Ok(after)
  {
    assert cs[..k][..k - 1] == cs[..k - 1];
  }

  /** The state after the first `k` inputs of the button have been pushed. */
  function Pushed(m: ComponentMetadata, k: nat): ComponentMetadata
    requires k <= 5
  {
    m.(inputs := m.inputs + ButtonMetadata().inputs[..k])
  }

  lemma PropertiesVisited(m: ComponentMetadata)
    ensures VisitChildren(m, ButtonProperties()) == Ok(Pushed(m, 5))
  {
    var ps := ButtonProperties();
    var ins := ButtonMetadata().inputs;
    assert VisitChildren(m, ps[..6]) == Ok(Pushed(m, 5)) by {
      assert ps[..0] == [] && m.inputs + ins[..0] == m.inputs;
      PropertyVisited(Pushed(m, 0), "label", "string", "''", InputCall);
      assert m.inputs + ins[..0] + [ins[0]] == m.inputs + ins[..1];
      ChildVisited(m, ps, 1, Pushed(m, 0), Pushed(m, 1));
      PropertyVisited(Pushed(m, 1), "disabled", "boolean", "false", InputCall);
      assert m.inputs + ins[..1] + [ins[1]] == m.inputs + ins[..2];
      ChildVisited(m, ps, 2, Pushed(m, 1), Pushed(m, 2));
      PropertyVisited(Pushed(m, 2), "type", "ButtonType", "ButtonType.Primary", InputCall);
      assert m.inputs + ins[..2] + [ins[2]] == m.inputs + ins[..3];
      ChildVisited(m, ps, 3, Pushed(m, 2), Pushed(m, 3));
      PropertyVisited(Pushed(m, 3), "size", "ButtonSize", "ButtonSize.Medium", InputCall);
      assert m.inputs + ins[..3] + [ins[3]] == m.inputs + ins[..4];
      ChildVisited(m, ps, 4, Pushed(m, 3), Pushed(m, 4));
      PropertyVisited(Pushed(m, 4), "font", "ButtonFontSize", "ButtonFontSize.FS14", InputCall);
      assert m.inputs + ins[..4] + [ins[4]] == m.inputs + ins[..5];
      ChildVisited(m, ps, 5, Pushed(m, 4), Pushed(m, 5));
      PropertyVisited(Pushed(m, 5), "buttonClick", "EventEmitter<any>", "new EventEmitter<any>()", Call("Output", []));
      ChildVisited(m, ps, 6, Pushed(m, 5), Pushed(m, 5));
    }
    assert ps[..6] == ps;
  }

  lemma AllPushed()
    ensures Pushed(ComponentMetadata("mekor-lib-button", true, []), 5) == ButtonMetadata()
  {
  }

  lemma ButtonClassVisited()
    ensures VisitNode(Initial, ButtonClass()) == Ok(ButtonMetadata())
  {
    ButtonDecoratorApplied();
    var m := ComponentMetadata("mekor-lib-button", true, []);
    var leaves3, leaves5 := [Leaf, Leaf, Leaf], [Leaf, Leaf, Leaf, Leaf, Leaf];
    UnmarkedChildrenKeepMetadata(m, leaves3);
    VisitChildrenConcat(m, leaves3, ButtonProperties());
    PropertiesVisited(m);
    var m' := Pushed(m, 5);
    AllPushed();
    UnmarkedChildrenKeepMetadata(m', leaves5);
    VisitChildrenConcat(m, leaves3 + ButtonProperties(), leaves5);
  }

  lemma ButtonBindingsOnOneLine()
    ensures forall k :: 0 <= k < |ButtonMetadata().inputs| ==> NoNewline(Binding(ButtonMetadata().inputs[k]))
  {
    var ins := ButtonMetadata().inputs;
    forall k | 0 <= k < |ins| ensures NoNewline(Binding(ins[k])) {
      var b := Binding(ins[k]);
      assert b == "[" + ins[k].name + "]=" + ins[k].defaultValue.value;
      assert NoNewline(ins[k].name) && NoNewline(ins[k].defaultValue.value);
      assert forall c :: c in b ==> c in "[" || c in ins[k].name || c in "]=" || c in ins[k].defaultValue.value;
    }
  }

  /** The button's element reads back as eight lines: the opening tag, one
      binding line per input in declaration order, the `>` line and the closing tag. */
  lemma ButtonElementRendered()
    ensures var md := ButtonMetadata();
      var ls := Lines(RenderElement(md));
      && |ls| == 8
      && ls == ["<" + md.selector] + ExpectedBindingLines(md.inputs) + ["  >", "  </" + md.selector + ">"]
  {
    var md := ButtonMetadata();
    assert NoNewline(md.selector);
    ButtonBindingsOnOneLine();
    RenderedLines(md);
  }

  /** A file name made of a non-empty stem and the suffix is a component file
      whose component name is the stem. */
  lemma ComponentFileNamed(stem: string)
    requires stem != []
    ensures EndsWith(stem + ComponentSuffix, ComponentSuffix)
    ensures BaseName(stem + ComponentSuffix, ComponentSuffix) == stem
  {
    var name := stem + ComponentSuffix;
    assert name[|name| - |ComponentSuffix|..] == ComponentSuffix;
    assert name[..|name| - |ComponentSuffix|] == stem;
  }

  /** The button's template and style sheet do not end with `.component.ts`. */
  lemma TemplateAndStyleSkipped()
    ensures !EndsWith("button.component.html", ComponentSuffix)
    ensures !EndsWith("button.component.scss", ComponentSuffix)
  {
    var html, scss := "button.component.html", "button.component.scss";
    var k := |ComponentSuffix| - 2;
    assert html[|html| - |ComponentSuffix|..][k] != ComponentSuffix[k];
    assert scss[|scss| - |ComponentSuffix|..][k] != ComponentSuffix[k];
  }

  /** The button's folder: its component file, template and style sheet. */
  function ButtonFolder(): seq<Entry>
  {
    [ File("button" + ComponentSuffix, ButtonFile()),
      File("button.component.html", Leaf),
      File("button.component.scss", Leaf) ]
  }

  /** A library folder holding the button's folder and a component file without
      decorators. */
  function Library(): seq<Entry>
  {
    [ Directory("button", ButtonFolder()),
      File("plain" + ComponentSuffix, OtherNode([])) ]
  }

  /** Walking one more entry appends that entry's jobs. */
  lemma CandidatesSnoc(dir: Path, es: seq<Entry>, e: Entry)
    ensures Candidates(dir, es + [e]) == Candidates(dir, es) + EntryCandidates(dir, e)
  {
    assert (es + [e])[..|es|] == es;
  }

  /** Of the button's folder only the `.component.ts` file is processed, under the name `button`. */
  lemma ButtonFolderWalked(dir: Path)
    ensures Candidates(dir, ButtonFolder()) == [Job(dir + ["button" + ComponentSuffix], "button", ButtonFile())]
  {
    var fs := ButtonFolder();
    ComponentFileNamed("button");
    TemplateAndStyleSkipped();
    CandidatesSnoc(dir, [], fs[0]);
    CandidatesSnoc(dir, [fs[0]], fs[1]);
    CandidatesSnoc(dir, [fs[0], fs[1]], fs[2]);
    assert [fs[0], fs[1]] + [fs[2]] == fs;
  }

  /** Walking the library processes exactly its two `.component.ts` files, under
      their stripped names, in walk order. */
  lemma LibraryWalked(root: Path)
    ensures Candidates(root, Library()) == [
      Job(root + ["button", "button" + ComponentSuffix], "button", ButtonFile()),
      Job(root + ["plain" + ComponentSuffix], "plain", OtherNode([]))]
  {
    var lib := Library();
    ButtonFolderWalked(root + ["button"]);
    ComponentFileNamed("plain");
    CandidatesSnoc(root, [], lib[0]);
    CandidatesSnoc(root, [lib[0]], lib[1]);
    assert [lib[0]] + [lib[1]] == lib;
    assert root + ["button"] + ["button" + ComponentSuffix] == root + ["button", "button" + ComponentSuffix];
  }
}
