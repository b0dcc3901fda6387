/** `readComponentMetadata` as the source writes it: three variables that the
    recursive `visit` overwrites (`selector`, `standalone`) or appends to
    (`inputs`) while it walks the tree, here the fields of a reader object. Each
    method is proved to leave the fields as the fold in module Extraction
    describes, or to report the failure the fold reports. */
module Reader {
  import opened Wrappers
  import opened Syntax
  import opened Metadata
  import opened Extraction

  /** `err` and the fields `now` are what the fold outcome `r` says: the failure
      reported, or no failure and the accumulated metadata. */
  predicate Reached(r: Outcome, err: Option<ExtractError>, now: ComponentMetadata)
  {
    match r
    case Ok(m) => err == None && now == m
    case Err(e) => err == Some(e)
  }

  class MetadataReader {
    var selector: string
    var standalone: bool
    var inputs: seq<InputMetadata>

    function Snapshot(): ComponentMetadata
      reads this
    {
      ComponentMetadata(selector, standalone, inputs)
    }

    /** The accumulators start empty: `''`, `false`, `[]`. */
    constructor ()
      ensures Snapshot() == Initial
    {
      selector, standalone, inputs := "", false, [];
    }

    /** The `forEach` over the properties of the `@Component` object literal. */
    method VisitComponentProperties(ps: seq<ObjProp>) returns (err: Option<ExtractError>)
      modifies this
      ensures Reached(ApplyProperties(old(Snapshot()), ps), err, Snapshot())
    {
      err := None;
      var i := 0;
      while i < |ps|
        invariant 0 <= i <= |ps|
        invariant err == None
        invariant ApplyProperties(old(Snapshot()), ps[..i]) == Ok(Snapshot())
      {
        assert ps[..i + 1][..i] == ps[..i];
        match ps[i] {
          case PropertyAssignment(name, init) =>
            if name == SelectorKey {
              if !init.TextLit? {
                err := Some(SelectorWithoutText);
                PropertiesFailureAborts(old(Snapshot()), ps, i + 1);
                return;
              }
              selector := init.text;
            } else if name == StandaloneKey {
              standalone := init.TrueKw?;
            }
          case OtherProp =>
        }
        i := i + 1;
      }
      assert ps[..i] == ps;
    }

    /** The `forEach` over the decorators of a class declaration. */
    method VisitClassDecorators(ds: seq<Decorator>) returns (err: Option<ExtractError>)
      modifies this
      ensures Reached(ApplyClassDecorators(old(Snapshot()), ds), err, Snapshot())
    {
      err := None;
      var i := 0;
      while i < |ds|
        invariant 0 <= i <= |ds|
        invariant err == None
        invariant ApplyClassDecorators(old(Snapshot()), ds[..i]) == Ok(Snapshot())
      {
        assert ds[..i + 1][..i] == ds[..i];
        var d := ds[i];
        if d.Call? && d.callee == ComponentMarker && |d.args| > 0 {
          match d.args[0] {
            case ObjectLiteral(ps) =>
              err := VisitComponentProperties(ps);
            case OtherArg(_) =>
              err := Some(ComponentArgNotObjectLiteral);
          }
          if err.Some? {
            ClassDecoratorsFailureAborts(old(Snapshot()), ds, i + 1);
            return;
          }
        }
        i := i + 1;
      }
      assert ds[..i] == ds;
    }

    /** The `forEach` over the decorators of a property declaration: each call to
        `Input` pushes the property's name, type text and initializer text. */
    method VisitPropertyDecorators(n: Node)
      requires n.PropertyDecl?
      modifies this
      ensures Snapshot() == ApplyPropertyDecorators(old(Snapshot()), n, n.decorators)
    {
      var ds := n.decorators;
      var i := 0;
      while i < |ds|
        invariant 0 <= i <= |ds|
        invariant Snapshot() == ApplyPropertyDecorators(old(Snapshot()), n, ds[..i])
      {
        assert ds[..i + 1][..i] == ds[..i];
        if ds[i].Call? && ds[i].callee == InputMarker {
          inputs := inputs + [InputOf(n)];
        }
        i := i + 1;
      }
      assert ds[..i] == ds;
    }

    /** `visit`: the node's own decorators, then every child in order. */
    method Visit(n: Node) returns (err: Option<ExtractError>)
      modifies this
      ensures Reached(VisitNode(old(Snapshot()), n), err, Snapshot())
      decreases n
    {
      err := None;
      match n {
        case ClassDecl(ds, _) =>
          err := VisitClassDecorators(ds);
        case PropertyDecl(_, _, _, _, _) =>
          VisitPropertyDecorators(n);
        case OtherNode(_) =>
      }
      if err.Some? {
        return;
      }
      ghost var afterOwn := Snapshot();
      var cs := n.children;
      var i := 0;
      while i < |cs|
        invariant 0 <= i <= |cs|
        invariant err == None
        invariant VisitChildren(afterOwn, cs[..i]) == Ok(Snapshot())
      {
        assert cs[..i + 1][..i] == cs[..i];
        err := Visit(cs[i]);
        if err.Some? {
          ChildrenFailureAborts(afterOwn, cs, i + 1);
          return;
        }
        i := i + 1;
      }
      assert cs[..i] == cs;
    }
  }

  /** `readComponentMetadata` on an already parsed file: fresh accumulators, one
      visit of the root, and the three accumulators returned; a failed cast
      surfaces as the error the fold reports. */
  method ReadComponentMetadata(root: Node) returns (r: Outcome)
    ensures r == Extract(root)
  {
    var reader := new MetadataReader();
    var err := reader.Visit(root);
    r := if err.Some? then Err(err.value) else Ok(reader.Snapshot());
  }
}
