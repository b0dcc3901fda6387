/** The abstract syntax tree that stands in for the TypeScript compiler's tree.
    Only what the metadata extractor looks at is kept: which nodes are class
    declarations and property declarations, their decorators, the shape of a
    decorator's call, the properties of an object-literal argument and the kind
    of an initializer. Texts are the `getText()` renderings the parser supplies. */
module Syntax {
  import opened Wrappers

  /** The initializer of an object-literal property assignment. `TextLit`
      carries the literal's value (its `.text`, without quotes). */
  datatype Initializer =
    | TextLit(text: string)
    | TrueKw
    | OtherInit(source: string)

  /** A property of an object literal: `name: initializer`, or anything else
      (shorthand, spread, method). `name` is the name's source text. */
  datatype ObjProp =
    | PropertyAssignment(name: string, init: Initializer)
    | OtherProp

  /** An argument of a decorator call. */
  datatype Arg =
    | ObjectLiteral(props: seq<ObjProp>)
    | OtherArg(source: string)

  /** A decorator: `@callee(args)` is a call, `@Name` without parentheses is not. */
  datatype Decorator =
    | Call(callee: string, args: seq<Arg>)
    | NonCall(source: string)

  /** A syntax node. `children` are the nodes the parser's child iteration visits,
      in order; `decorators` are the decorators the parser reports for the node. */
  datatype Node =
    | ClassDecl(decorators: seq<Decorator>, children: seq<Node>)
    | PropertyDecl(name: string, typeText: Option<string>, initText: Option<string>,
                   decorators: seq<Decorator>, children: seq<Node>)
    | OtherNode(children: seq<Node>)

  predicate IsCallTo(d: Decorator, callee: string)
  {
    d.Call? && d.callee == callee
  }
}

/** What the extractor produces for one component file. */
module Metadata {
  import opened Wrappers

  /** One `@Input()` property: its name, its declared type text and its
      initializer text, the latter two `None` where the source has `null`. */
  datatype InputMetadata = InputMetadata(name: string, typeText: Option<string>, defaultValue: Option<string>)

  datatype ComponentMetadata = ComponentMetadata(selector: string, standalone: bool, inputs: seq<InputMetadata>)

  /** The two places where the source's traversal does not check the shape it
      casts to: a `Component` argument that is not an object literal, and a
      `selector` initializer without a `.text`. */
  datatype ExtractError =
    | ComponentArgNotObjectLiteral
    | SelectorWithoutText

  /** The values the accumulators start from. */
  const Initial := ComponentMetadata("", false, [])
}
