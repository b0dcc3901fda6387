/** The metadata extractor (`readComponentMetadata` and its inner `visit`,
    projects/sampler/src/generateExamples.ts:19-63) as a fold that threads the
    three accumulators `selector`, `standalone` and `inputs` through a pre-order
    walk, together with an independent description of its result: the list of
    writes the walk meets, settled by "last write wins" and "append in order". */
module Extraction {
  import opened Wrappers
  import opened Syntax
  import opened Metadata

  const ComponentMarker := "Component"
  const InputMarker := "Input"
  const SelectorKey := "selector"
  const StandaloneKey := "standalone"

  type Outcome = Result<ComponentMetadata, ExtractError>

  // ---------------------------------------------------------------------------
  // The traversal, step by step, as the source performs it
  // ---------------------------------------------------------------------------

  /** One property of the `@Component({...})` object literal: `selector` must have a
      `.text` (the source casts without checking), `standalone` becomes
      whether the initializer is the `true` keyword, anything else is ignored. */
  function ApplyProperty(m: ComponentMetadata, p: ObjProp): Outcome
  {
    match p
    case OtherProp => Ok(m)
    case PropertyAssignment(name, init) =>
      if name == SelectorKey then
        (if init.TextLit? then Ok(m.(selector := init.text)) else Err(SelectorWithoutText))
      else if name == StandaloneKey then
        Ok(m.(standalone := init.TrueKw?))
      else
        Ok(m)
  }

  /** The properties of the object literal, in order; the first failure aborts. */
  function ApplyProperties(m: ComponentMetadata, ps: seq<ObjProp>): Outcome
    decreases |ps|
  {
    if ps == [] then Ok(m)
    else
      match ApplyProperties(m, ps[..|ps| - 1])
      case Err(e) => Err(e)
      case Ok(m') => ApplyProperty(m', ps[|ps| - 1])
  }

  /** One decorator of a class declaration: only a call whose callee text is
      exactly `Component` and that has at least one argument has an effect; its
      first argument must be an object literal (the source casts without checking). */
  function ApplyClassDecorator(m: ComponentMetadata, d: Decorator): Outcome
  {
    if IsCallTo(d, ComponentMarker) && |d.args| > 0 then
      match d.args[0]
      case ObjectLiteral(ps) => ApplyProperties(m, ps)
      case OtherArg(_) => Err(ComponentArgNotObjectLiteral)
    else
      Ok(m)
  }

  function ApplyClassDecorators(m: ComponentMetadata, ds: seq<Decorator>): Outcome
    decreases |ds|
  {
    if ds == [] then Ok(m)
    else
      match ApplyClassDecorators(m, ds[..|ds| - 1])
      case Err(e) => Err(e)
      case Ok(m') => ApplyClassDecorator(m', ds[|ds| - 1])
  }

  /** The entry an `@Input()` decorator pushes for a property declaration. */
  function InputOf(n: Node): InputMetadata
    requires n.PropertyDecl?
  {
    InputMetadata(n.name, n.typeText, n.initText)
  }

  /** The decorators of a property declaration: every call to `Input` pushes one
      entry, so a property with two such decorators is pushed twice. */
  function ApplyPropertyDecorators(m: ComponentMetadata, n: Node, ds: seq<Decorator>): ComponentMetadata
    requires n.PropertyDecl?
    decreases |ds|
  {
    if ds == [] then m
    else
      var m' := ApplyPropertyDecorators(m, n, ds[..|ds| - 1]);
      if IsCallTo(ds[|ds| - 1], InputMarker) then m'.(inputs := m'.inputs + [InputOf(n)]) else m'
  }

  /** The node's own decorators first, then its children in order. */
  function VisitNode(m: ComponentMetadata, n: Node): Outcome
    decreases n, 1
  {
    var own :=
      match n
      case ClassDecl(ds, _) => ApplyClassDecorators(m, ds)
      case PropertyDecl(_, _, _, ds, _) => Ok(ApplyPropertyDecorators(m, n, ds))
      case OtherNode(_) => Ok(m);
    match own
    case Err(e) => Err(e)
    case Ok(m') => VisitChildren(m', n.children)
  }

  function VisitChildren(m: ComponentMetadata, cs: seq<Node>): Outcome
    decreases cs, 0
  {
    if cs == [] then Ok(m)
    else
      match VisitChildren(m, cs[..|cs| - 1])
      case Err(e) => Err(e)
      case Ok(m') => VisitNode(m', cs[|cs| - 1])
  }

  /** `readComponentMetadata` on an already parsed file. */
  function Extract(root: Node): Outcome
  {
    VisitNode(Initial, root)
  }

  // ---------------------------------------------------------------------------
  // An independent description: the writes met in pre-order, settled
  // ---------------------------------------------------------------------------

  /** The writes a traversal performs, in the order it performs them. */
  datatype Writes = Writes(selectors: seq<Initializer>, standalones: seq<Initializer>, inputs: seq<InputMetadata>)

  const NoWrites := Writes([], [], [])

  function Then(a: Writes, b: Writes): Writes
  {
    Writes(a.selectors + b.selectors, a.standalones + b.standalones, a.inputs + b.inputs)
  }

  /** The initializers of the assignments to `key` among `ps`, in order. */
  function Assigned(ps: seq<ObjProp>, key: string): (r: seq<Initializer>)
    ensures |r| <= |ps|
    decreases |ps|
  {
    if ps == [] then []
    else
      var last := ps[|ps| - 1];
      Assigned(ps[..|ps| - 1], key) + (if last.PropertyAssignment? && last.name == key then [last.init] else [])
  }

  /** The initializers collected for `key` are exactly those of the `key`
      assignments among `ps`: none exactly when no property is assigned to `key`. */
  lemma {:induction false} AssignedMeaning(ps: seq<ObjProp>, key: string)
    ensures forall x :: x in Assigned(ps, key) <==> PropertyAssignment(key, x) in ps
    ensures Assigned(ps, key) == [] <==> forall p :: p in ps && p.PropertyAssignment? ==> p.name != key
    decreases |ps|
  {
    if ps != [] {
      AssignedMeaning(ps[..|ps| - 1], key);
      assert ps == ps[..|ps| - 1] + [ps[|ps| - 1]];
    }
  }

  /** The object-literal properties a decorator hands to the `Component` branch. */
  function ComponentProps(d: Decorator): seq<ObjProp>
  {
    if IsCallTo(d, ComponentMarker) && |d.args| > 0 && d.args[0].ObjectLiteral? then d.args[0].props else []
  }

  function PropWrites(ps: seq<ObjProp>): Writes
  {
    Writes(Assigned(ps, SelectorKey), Assigned(ps, StandaloneKey), [])
  }

  function ClassDecoratorWrites(ds: seq<Decorator>): Writes
    decreases |ds|
  {
    if ds == [] then NoWrites
    else Then(ClassDecoratorWrites(ds[..|ds| - 1]), PropWrites(ComponentProps(ds[|ds| - 1])))
  }

  /** The number of decorators among `ds` that are calls to `callee`. */
  function CountCalls(ds: seq<Decorator>, callee: string): (r: nat)
    ensures r <= |ds|
    ensures r == 0 <==> forall d :: d in ds ==> !IsCallTo(d, callee)
    decreases |ds|
  {
    if ds == [] then 0
    else
      assert ds == ds[..|ds| - 1] + [ds[|ds| - 1]];
      CountCalls(ds[..|ds| - 1], callee) + (if IsCallTo(ds[|ds| - 1], callee) then 1 else 0)
  }

  function OwnWrites(n: Node): Writes
  {
    match n
    case ClassDecl(ds, _) => ClassDecoratorWrites(ds)
    case PropertyDecl(_, _, _, ds, _) => Writes([], [], seq(CountCalls(ds, InputMarker), _ => InputOf(n)))
    case OtherNode(_) => NoWrites
  }

  /** Pre-order: a node's own writes, then those of its children in order. */
  function WritesOf(n: Node): Writes
    decreases n, 1
  {
    Then(OwnWrites(n), WritesOfAll(n.children))
  }

  function WritesOfAll(cs: seq<Node>): Writes
    decreases cs, 0
  {
    if cs == [] then NoWrites
    else Then(WritesOfAll(cs[..|cs| - 1]), WritesOf(cs[|cs| - 1]))
  }

  /** The selector an initializer with a `.text` writes (only consulted when every
      selector initializer has one; anything else is an error). */
  function SelectorText(i: Initializer): string
  {
    if i.TextLit? then i.text else ""
  }

  /** Last write wins for `selector` and `standalone`; `inputs` appends. */
  function Settle(m: ComponentMetadata, w: Writes): ComponentMetadata
  {
    ComponentMetadata(
      if w.selectors == [] then m.selector else SelectorText(w.selectors[|w.selectors| - 1]),
      if w.standalones == [] then m.standalone else w.standalones[|w.standalones| - 1].TrueKw?,
      m.inputs + w.inputs)
  }

  predicate AllTextual(inits: seq<Initializer>)
  {
    forall i :: 0 <= i < |inits| ==> inits[i].TextLit?
  }

  /** A `Component` call with arguments whose first argument is an object literal. */
  predicate ArgShaped(d: Decorator)
  {
    IsCallTo(d, ComponentMarker) && |d.args| > 0 ==> d.args[0].ObjectLiteral?
  }

  predicate ArgsShaped(n: Node)
    decreases n
  {
    (n.ClassDecl? ==> forall d :: d in n.decorators ==> ArgShaped(d))
    && forall c :: c in n.children ==> ArgsShaped(c)
  }

  /** The two casts of the source hold everywhere in the tree. */
  predicate WellShaped(n: Node)
  {
    ArgsShaped(n) && AllTextual(WritesOf(n).selectors)
  }

  // ---------------------------------------------------------------------------
  // The fold agrees with the description
  // ---------------------------------------------------------------------------

  lemma SettleThen(m: ComponentMetadata, a: Writes, b: Writes)
    ensures Settle(m, Then(a, b)) == Settle(Settle(m, a), b)
  {
    assert Then(a, b).selectors == a.selectors + b.selectors;
    assert Then(a, b).standalones == a.standalones + b.standalones;
  }

  lemma {:induction false} ApplyPropertiesSettles(m: ComponentMetadata, ps: seq<ObjProp>)
    ensures ApplyProperties(m, ps).Ok? <==> AllTextual(Assigned(ps, SelectorKey))
    ensures ApplyProperties(m, ps).Ok? ==> ApplyProperties(m, ps).value == Settle(m, PropWrites(ps))
    decreases |ps|
  {
    if ps != [] {
      var init, last := ps[..|ps| - 1], ps[|ps| - 1];
      ApplyPropertiesSettles(m, init);
      var one := PropWrites([last]);
      assert [last][..0] == [];
      assert PropWrites(ps) == Then(PropWrites(init), one);
      SettleThen(m, PropWrites(init), one);
      var sels := Assigned(ps, SelectorKey);
      assert sels == Assigned(init, SelectorKey) + one.selectors;
      AllTextualConcat(Assigned(init, SelectorKey), one.selectors);
    }
  }

  lemma AllTextualConcat(a: seq<Initializer>, b: seq<Initializer>)
    ensures AllTextual(a + b) <==> AllTextual(a) && AllTextual(b)
  {
    if AllTextual(a + b) {
      forall i | 0 <= i < |a| ensures a[i].TextLit? {
        assert (a + b)[i] == a[i];
      }
      forall i | 0 <= i < |b| ensures b[i].TextLit? {
        assert (a + b)[|a| + i] == b[i];
      }
    }
  }

  lemma ApplyClassDecoratorSettles(m: ComponentMetadata, d: Decorator)
    ensures ApplyClassDecorator(m, d).Ok? <==> ArgShaped(d) && AllTextual(Assigned(ComponentProps(d), SelectorKey))
    ensures ApplyClassDecorator(m, d).Ok? ==> ApplyClassDecorator(m, d).value == Settle(m, PropWrites(ComponentProps(d)))
  {
    if IsCallTo(d, ComponentMarker) && |d.args| > 0 && d.args[0].ObjectLiteral? {
      ApplyPropertiesSettles(m, d.args[0].props);
    }
  }

  lemma {:induction false} ApplyClassDecoratorsSettles(m: ComponentMetadata, ds: seq<Decorator>)
    ensures ApplyClassDecorators(m, ds).Ok? <==>
      (forall d :: d in ds ==> ArgShaped(d)) && AllTextual(ClassDecoratorWrites(ds).selectors)
    ensures ApplyClassDecorators(m, ds).Ok? ==> ApplyClassDecorators(m, ds).value == Settle(m, ClassDecoratorWrites(ds))
    decreases |ds|
  {
    if ds != [] {
      var init, last := ds[..|ds| - 1], ds[|ds| - 1];
      assert ds == init + [last];
      ApplyClassDecoratorsSettles(m, init);
      var w := ClassDecoratorWrites(init);
      var one := PropWrites(ComponentProps(last));
      AllTextualConcat(w.selectors, one.selectors);
      match ApplyClassDecorators(m, init)
      case Err(_) =>
      case Ok(m') =>
        ApplyClassDecoratorSettles(m', last);
        SettleThen(m, w, one);
    }
  }

  lemma {:induction false} ApplyPropertyDecoratorsAppends(m: ComponentMetadata, n: Node, ds: seq<Decorator>)
    requires n.PropertyDecl?
    ensures ApplyPropertyDecorators(m, n, ds) == m.(inputs := m.inputs + seq(CountCalls(ds, InputMarker), _ => InputOf(n)))
    decreases |ds|
  {
    if ds != [] {
      ApplyPropertyDecoratorsAppends(m, n, ds[..|ds| - 1]);
      var k := CountCalls(ds[..|ds| - 1], InputMarker);
      assert seq(k, _ => InputOf(n)) + [InputOf(n)] == seq(k + 1, _ => InputOf(n));
    }
  }

  lemma {:induction false} VisitNodeSettles(m: ComponentMetadata, n: Node)
    ensures VisitNode(m, n).Ok? <==> WellShaped(n)
    ensures VisitNode(m, n).Ok? ==> VisitNode(m, n).value == Settle(m, WritesOf(n))
    decreases n, 1
  {
    var own := OwnWrites(n);
    var rest := WritesOfAll(n.children);
    AllTextualConcat(own.selectors, rest.selectors);
    var afterOwn: Outcome;
    match n {
      case ClassDecl(ds, _) =>
        ApplyClassDecoratorsSettles(m, ds);
        afterOwn := ApplyClassDecorators(m, ds);
      case PropertyDecl(_, _, _, ds, _) =>
        ApplyPropertyDecoratorsAppends(m, n, ds);
        afterOwn := Ok(ApplyPropertyDecorators(m, n, ds));
      case OtherNode(_) =>
        afterOwn := Ok(m);
    }
    assert afterOwn.Ok? <==> (n.ClassDecl? ==> forall d :: d in n.decorators ==> ArgShaped(d)) && AllTextual(own.selectors);
    match afterOwn {
      case Err(_) =>
      case Ok(m') =>
        assert m' == Settle(m, own);
        VisitChildrenSettles(m', n.children);
        SettleThen(m, own, rest);
    }
  }

  lemma {:induction false} VisitChildrenSettles(m: ComponentMetadata, cs: seq<Node>)
    ensures VisitChildren(m, cs).Ok? <==>
      (forall c :: c in cs ==> ArgsShaped(c)) && AllTextual(WritesOfAll(cs).selectors)
    ensures VisitChildren(m, cs).Ok? ==> VisitChildren(m, cs).value == Settle(m, WritesOfAll(cs))
    decreases cs, 0
  {
    if cs != [] {
      var init, last := cs[..|cs| - 1], cs[|cs| - 1];
      assert cs == init + [last];
      VisitChildrenSettles(m, init);
      var w := WritesOfAll(init);
      AllTextualConcat(w.selectors, WritesOf(last).selectors);
      AllTextualConcat(OwnWrites(last).selectors, WritesOfAll(last.children).selectors);
      match VisitChildren(m, init)
      case Err(_) =>
      case Ok(m') =>
        VisitNodeSettles(m', last);
        SettleThen(m, w, WritesOf(last));
        assert (forall c :: c in cs ==> ArgsShaped(c)) <==>
          (forall c :: c in init ==> ArgsShaped(c)) && ArgsShaped(last);
    }
  }

  // ---------------------------------------------------------------------------
  // What the extractor promises
  // ---------------------------------------------------------------------------

  /** Extraction fails exactly when one of the two unchecked casts is wrong
      somewhere in the tree. Otherwise the selector is the text of the last
      `selector` assignment met in pre-order (or `""`), `standalone` is whether
      the last `standalone` assignment is the `true` keyword (or `false`), and
      `inputs` lists one entry per `@Input()` call in pre-order. */
  lemma ExtractMeaning(root: Node)
    ensures Extract(root).Ok? <==> WellShaped(root)
    ensures Extract(root).Ok? ==>
      var w, md := WritesOf(root), Extract(root).value;
      && md.selector == (if w.selectors == [] then "" else w.selectors[|w.selectors| - 1].text)
      && md.standalone == (w.standalones != [] && w.standalones[|w.standalones| - 1].TrueKw?)
      && md.inputs == w.inputs
  {
    VisitNodeSettles(Initial, root);
  }

  /** The number of `@Input()` call decorators on property declarations anywhere in the tree. */
  function InputDecoratorCount(n: Node): nat
    decreases n, 1
  {
    (if n.PropertyDecl? then CountCalls(n.decorators, InputMarker) else 0) + InputDecoratorCountAll(n.children)
  }

  function InputDecoratorCountAll(cs: seq<Node>): nat
    decreases cs, 0
  {
    if cs == [] then 0 else InputDecoratorCountAll(cs[..|cs| - 1]) + InputDecoratorCount(cs[|cs| - 1])
  }

  lemma {:induction false} ClassDecoratorsWriteNoInputs(ds: seq<Decorator>)
    ensures ClassDecoratorWrites(ds).inputs == []
    decreases |ds|
  {
    if ds != [] {
      ClassDecoratorsWriteNoInputs(ds[..|ds| - 1]);
    }
  }

  lemma {:induction false} InputWritesCounted(n: Node)
    ensures |WritesOf(n).inputs| == InputDecoratorCount(n)
    decreases n, 1
  {
    if n.ClassDecl? {
      ClassDecoratorsWriteNoInputs(n.decorators);
    }
    assert |OwnWrites(n).inputs| == if n.PropertyDecl? then CountCalls(n.decorators, InputMarker) else 0;
    InputWritesCountedAll(n.children);
  }

  lemma {:induction false} InputWritesCountedAll(cs: seq<Node>)
    ensures |WritesOfAll(cs).inputs| == InputDecoratorCountAll(cs)
    decreases cs, 0
  {
    if cs != [] {
      InputWritesCountedAll(cs[..|cs| - 1]);
      InputWritesCounted(cs[|cs| - 1]);
    }
  }

  /** No deduplication: one entry per `@Input()` call, wherever it is. */
  lemma ExtractInputCount(root: Node)
    ensures Extract(root).Ok? ==> |Extract(root).value.inputs| == InputDecoratorCount(root)
  {
    ExtractMeaning(root);
    InputWritesCounted(root);
  }

  /** No class declaration carries a `Component` call and no property
      declaration an `Input` call. */
  predicate NoMarkers(n: Node)
    decreases n
  {
    (n.ClassDecl? ==> forall d :: d in n.decorators ==> !IsCallTo(d, ComponentMarker))
    && (n.PropertyDecl? ==> forall d :: d in n.decorators ==> !IsCallTo(d, InputMarker))
    && forall c :: c in n.children ==> NoMarkers(c)
  }

  lemma {:induction false} UnmarkedClassDecoratorsWriteNothing(ds: seq<Decorator>)
    requires forall d :: d in ds ==> !IsCallTo(d, ComponentMarker)
    ensures ClassDecoratorWrites(ds) == NoWrites
    decreases |ds|
  {
    if ds != [] {
      assert ds[|ds| - 1] in ds;
      UnmarkedClassDecoratorsWriteNothing(ds[..|ds| - 1]);
    }
  }

  lemma {:induction false} UnmarkedInputCallsNone(ds: seq<Decorator>)
    requires forall d :: d in ds ==> !IsCallTo(d, InputMarker)
    ensures CountCalls(ds, InputMarker) == 0
    decreases |ds|
  {
    if ds != [] {
      assert ds[|ds| - 1] in ds;
      UnmarkedInputCallsNone(ds[..|ds| - 1]);
    }
  }

  lemma {:induction false} UnmarkedWritesNothing(n: Node)
    requires NoMarkers(n)
    ensures ArgsShaped(n) && WritesOf(n) == NoWrites
    decreases n, 1
  {
    if n.ClassDecl? {
      UnmarkedClassDecoratorsWriteNothing(n.decorators);
    } else if n.PropertyDecl? {
      UnmarkedInputCallsNone(n.decorators);
    }
    UnmarkedWritesNothingAll(n.children);
  }

  lemma {:induction false} UnmarkedWritesNothingAll(cs: seq<Node>)
    requires forall c :: c in cs ==> NoMarkers(c)
    ensures (forall c :: c in cs ==> ArgsShaped(c)) && WritesOfAll(cs) == NoWrites
    decreases cs, 0
  {
    if cs != [] {
      var init, last := cs[..|cs| - 1], cs[|cs| - 1];
      assert cs == init + [last];
      UnmarkedWritesNothingAll(init);
      UnmarkedWritesNothing(last);
    }
  }

  /** A file without the two decorator shapes yields the defaults. */
  lemma ExtractDefaults(root: Node)
    requires NoMarkers(root)
    ensures Extract(root) == Ok(ComponentMetadata("", false, []))
  {
    UnmarkedWritesNothing(root);
    VisitNodeSettles(Initial, root);
  }

  /** The decorators among `ds` that are calls to `callee`, in order. */
  function CallsTo(ds: seq<Decorator>, callee: string): (r: seq<Decorator>)
    ensures forall d :: d in r <==> d in ds && IsCallTo(d, callee)
    ensures |r| == CountCalls(ds, callee)
    decreases |ds|
  {
    if ds == [] then []
    else
      assert ds == ds[..|ds| - 1] + [ds[|ds| - 1]];
      CallsTo(ds[..|ds| - 1], callee) + (if IsCallTo(ds[|ds| - 1], callee) then [ds[|ds| - 1]] else [])
  }

  /** Decorators on a class that are not calls to `Component` (`@Component`
      without parentheses, `@Injectable()`, `@core.Component(...)`) can be
      dropped without changing anything. */
  lemma {:induction false} OtherClassDecoratorsIgnored(m: ComponentMetadata, ds: seq<Decorator>)
    ensures ApplyClassDecorators(m, ds) == ApplyClassDecorators(m, CallsTo(ds, ComponentMarker))
    decreases |ds|
  {
    if ds != [] {
      var init, last := ds[..|ds| - 1], ds[|ds| - 1];
      OtherClassDecoratorsIgnored(m, init);
      var kept := CallsTo(init, ComponentMarker);
      if IsCallTo(last, ComponentMarker) {
        assert (kept + [last])[..|kept|] == kept;
      } else {
        assert CallsTo(ds, ComponentMarker) == kept + [] == kept;
      }
    }
  }

  /** Likewise on a property: only calls to `Input` push an entry (`@Output()`
      and `@Input` without parentheses do not). */
  lemma {:induction false} OtherPropertyDecoratorsIgnored(m: ComponentMetadata, n: Node, ds: seq<Decorator>)
    requires n.PropertyDecl?
    ensures ApplyPropertyDecorators(m, n, ds) == ApplyPropertyDecorators(m, n, CallsTo(ds, InputMarker))
    decreases |ds|
  {
    if ds != [] {
      var init, last := ds[..|ds| - 1], ds[|ds| - 1];
      OtherPropertyDecoratorsIgnored(m, n, init);
      var kept := CallsTo(init, InputMarker);
      if IsCallTo(last, InputMarker) {
        assert (kept + [last])[..|kept|] == kept;
      } else {
        assert CallsTo(ds, InputMarker) == kept + [] == kept;
      }
    }
  }

  lemma {:induction false} NoAssignmentsToKey(ps: seq<ObjProp>, key: string)
    requires forall p :: p in ps && p.PropertyAssignment? ==> p.name != key
    ensures Assigned(ps, key) == []
    decreases |ps|
  {
    if ps != [] {
      assert ps[|ps| - 1] in ps;
      NoAssignmentsToKey(ps[..|ps| - 1], key);
    }
  }

  /** `@Component()` with no argument, or with an object literal that assigns
      neither `selector` nor `standalone`, leaves the metadata as it was. */
  lemma ComponentWithoutKeysKeepsMetadata(m: ComponentMetadata, d: Decorator)
    requires IsCallTo(d, ComponentMarker)
    requires |d.args| == 0 || (d.args[0].ObjectLiteral? &&
      forall p :: p in d.args[0].props && p.PropertyAssignment? ==> p.name != SelectorKey && p.name != StandaloneKey)
    ensures ApplyClassDecorator(m, d) == Ok(m)
  {
    if |d.args| > 0 {
      var ps := d.args[0].props;
      NoAssignmentsToKey(ps, SelectorKey);
      NoAssignmentsToKey(ps, StandaloneKey);
      ApplyPropertiesSettles(m, ps);
      assert PropWrites(ps) == NoWrites;
      assert Settle(m, NoWrites) == m.(inputs := m.inputs + []);
      assert m.inputs + [] == m.inputs;
    }
  }

  /** A later `standalone: false` overrides an earlier `standalone: true`. */
  lemma StandaloneLaterFalseOverrides(m: ComponentMetadata)
    ensures ApplyProperties(m, [PropertyAssignment(StandaloneKey, TrueKw), PropertyAssignment(StandaloneKey, OtherInit("false"))])
         == Ok(m.(standalone := false))
  {
    var ps := [PropertyAssignment(StandaloneKey, TrueKw), PropertyAssignment(StandaloneKey, OtherInit("false"))];
    assert ps[..1] == [ps[0]] && ps[..1][..0] == [];
    assert ApplyProperties(m, ps[..1]) == Ok(m.(standalone := true));
  }

  /** Visiting `a + b` visits `a`, then `b` from where `a` left off. */
  lemma {:induction false} VisitChildrenConcat(m: ComponentMetadata, a: seq<Node>, b: seq<Node>)
    ensures VisitChildren(m, a + b) ==
      match VisitChildren(m, a)
      case Err(e) => Err(e)
      case Ok(m') => VisitChildren(m', b)
    decreases |b|
  {
    if b == [] {
      assert a + b == a;
    } else {
      assert (a + b)[..|a + b| - 1] == a + b[..|b| - 1];
      VisitChildrenConcat(m, a, b[..|b| - 1]);
    }
  }

  /** Nodes without the two decorator shapes leave the metadata as it was. */
  lemma UnmarkedChildrenKeepMetadata(m: ComponentMetadata, cs: seq<Node>)
    requires forall c :: c in cs ==> NoMarkers(c)
    ensures VisitChildren(m, cs) == Ok(m)
  {
    UnmarkedWritesNothingAll(cs);
    VisitChildrenSettles(m, cs);
    assert m.inputs + [] == m.inputs;
  }

  // ---------------------------------------------------------------------------
  // The first failure aborts: once a prefix has failed, so has the whole list
  // ---------------------------------------------------------------------------

  lemma {:induction false} PropertiesFailureAborts(m: ComponentMetadata, ps: seq<ObjProp>, k: nat)
    requires k <= |ps| && ApplyProperties(m, ps[..k]).Err?
    ensures ApplyProperties(m, ps) == ApplyProperties(m, ps[..k])
    decreases |ps|
  {
    if k < |ps| {
      assert ps[..|ps| - 1][..k] == ps[..k];
      PropertiesFailureAborts(m, ps[..|ps| - 1], k);
    } else {
      assert ps[..k] == ps;
    }
  }

  lemma {:induction false} ClassDecoratorsFailureAborts(m: ComponentMetadata, ds: seq<Decorator>, k: nat)
    requires k <= |ds| && ApplyClassDecorators(m, ds[..k]).Err?
    ensures ApplyClassDecorators(m, ds) == ApplyClassDecorators(m, ds[..k])
    decreases |ds|
  {
    if k < |ds| {
      assert ds[..|ds| - 1][..k] == ds[..k];
      ClassDecoratorsFailureAborts(m, ds[..|ds| - 1], k);
    } else {
      assert ds[..k] == ds;
    }
  }

  lemma {:induction false} ChildrenFailureAborts(m: ComponentMetadata, cs: seq<Node>, k: nat)
    requires k <= |cs| && VisitChildren(m, cs[..k]).Err?
    ensures VisitChildren(m, cs) == VisitChildren(m, cs[..k])
    decreases |cs|
  {
    if k < |cs| {
      assert cs[..|cs| - 1][..k] == cs[..k];
      ChildrenFailureAborts(m, cs[..|cs| - 1], k);
    } else {
      assert cs[..k] == cs;
    }
  }
}
