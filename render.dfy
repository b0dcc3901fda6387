/** The part of `generateExamplePage` (projects/sampler/src/generateExamples.ts:76-79)
    that depends on the metadata: the component's element, opened with its
    selector, carrying one `[name]=defaultValue` binding per input joined by a
    newline and two tabs, and closed with its selector. */
module Render {
  import opened Wrappers
  import opened Metadata

  /** The separator given to `join`. */
  const Separator := "\n\t\t"

  /** What a template literal makes of the captured initializer text: the text
      itself, or `null` when the property has no initializer. */
  function DefaultText(v: Option<string>): string
  {
    match v
    case Some(t) => t
    case None => "null"
  }

  /** One attribute binding, inserted verbatim, without escaping. */
  function Binding(i: InputMetadata): string
  {
    "[" + i.name + "]=" + DefaultText(i.defaultValue)
  }

  /** `inputs.map(...)`. */
  function Bindings(inputs: seq<InputMetadata>): (r: seq<string>)
    ensures |r| == |inputs| && forall k :: 0 <= k < |inputs| ==> r[k] == Binding(inputs[k])
  {
    seq(|inputs|, k requires 0 <= k < |inputs| => Binding(inputs[k]))
  }

  /** `Array.prototype.join`: the empty array joins to the empty string, one
      element to itself, and every further element is preceded by `sep`. */
  function Join(parts: seq<string>, sep: string): string
    decreases |parts|
  {
    if parts == [] then ""
    else if |parts| == 1 then parts[0]
    else Join(parts[..|parts| - 1], sep) + sep + parts[|parts| - 1]
  }

  /** Every part in turn, each preceded by `sep`. */
  function Prefixed(parts: seq<string>, sep: string): string
    decreases |parts|
  {
    if parts == [] then "" else sep + parts[0] + Prefixed(parts[1..], sep)
  }

  lemma {:induction false} PrefixedSnoc(parts: seq<string>, x: string, sep: string)
    ensures Prefixed(parts + [x], sep) == Prefixed(parts, sep) + sep + x
    decreases |parts|
  {
    if parts == [] {
      assert Prefixed([x], sep) == sep + x + Prefixed([], sep);
    } else {
      assert (parts + [x])[1..] == parts[1..] + [x];
      PrefixedSnoc(parts[1..], x, sep);
    }
  }

  /** A non-empty join is its first part followed by every later part, each
      preceded by the separator. */
  lemma {:induction false} JoinPrefixed(parts: seq<string>, sep: string)
    requires parts != []
    ensures Join(parts, sep) == parts[0] + Prefixed(parts[1..], sep)
    decreases |parts|
  {
    if |parts| == 1 {
      assert parts[1..] == [];
    } else {
      var init, last := parts[..|parts| - 1], parts[|parts| - 1];
      JoinPrefixed(init, sep);
      PrefixedSnoc(init[1..], last, sep);
      assert init[1..] + [last] == parts[1..];
    }
  }

  /** The element as the template emits it, from `<` to the closing `>`. */
  function RenderElement(m: ComponentMetadata): (r: string)
    ensures "<" + m.selector <= r
    ensures |r| >= |m.selector| + 3 && r[|r| - (|m.selector| + 3)..] == "</" + m.selector + ">"
  {
    var open, close := "<" + m.selector, "</" + m.selector + ">";
    var r := open + "\n    " + Join(Bindings(m.inputs), Separator) + "\n  >\n  " + close;
    assert r == open + ("\n    " + Join(Bindings(m.inputs), Separator) + "\n  >\n  " + close);
    assert r == ("<" + m.selector + "\n    " + Join(Bindings(m.inputs), Separator) + "\n  >\n  ") + close;
    r
  }

  // ---------------------------------------------------------------------------
  // Reading the element back line by line
  // ---------------------------------------------------------------------------

  predicate NoNewline(s: string)
  {
    '\n' !in s
  }

  /** The lines of `s`: the pieces between its newline characters. */
  function Lines(s: string): (r: seq<string>)
    ensures |r| >= 1
    decreases |s|
  {
    if s == [] then [""]
    else
      var rest := Lines(s[1..]);
      if s[0] == '\n' then [""] + rest else [[s[0]] + rest[0]] + rest[1..]
  }

  /** No line contains a newline. */
  lemma {:induction false} LinesHaveNoNewline(s: string)
    ensures forall k :: 0 <= k < |Lines(s)| ==> NoNewline(Lines(s)[k])
    decreases |s|
  {
    if s != [] {
      LinesHaveNoNewline(s[1..]);
      var rest := Lines(s[1..]);
      if s[0] != '\n' {
        assert NoNewline([s[0]] + rest[0]);
      }
    }
  }

  /** Splitting on newlines loses nothing: joining the lines with a newline
      gives the text back. */
  lemma {:induction false} LinesJoinBack(s: string)
    ensures Join(Lines(s), "\n") == s
    decreases |s|
  {
    if s != [] {
      var rest := Lines(s[1..]);
      LinesJoinBack(s[1..]);
      JoinPrefixed(rest, "\n");
      JoinPrefixed(Lines(s), "\n");
      if s[0] == '\n' {
        assert Lines(s)[1..] == rest;
        assert s == "\n" + s[1..];
      } else {
        assert Lines(s)[1..] == rest[1..];
        assert s == [s[0]] + s[1..];
      }
    }
  }

  lemma {:induction false} LinesOfNewlineFree(s: string)
    requires NoNewline(s)
    ensures Lines(s) == [s]
    decreases |s|
  {
    if s != [] {
      LinesOfNewlineFree(s[1..]);
      assert [s[0]] + s[1..] == s;
    }
  }

  /** A newline splits the text into the lines before it and the lines after it. */
  lemma {:induction false} LinesAcrossNewline(a: string, b: string)
    ensures Lines(a + "\n" + b) == Lines(a) + Lines(b)
    decreases |a|
  {
    if a == [] {
      assert a + "\n" + b == "\n" + b;
      assert ("\n" + b)[1..] == b;
    } else {
      assert (a + "\n" + b)[1..] == a[1..] + "\n" + b;
      LinesAcrossNewline(a[1..], b);
    }
  }

  /** A newline-free prefix extends the first line. */
  lemma {:induction false} LinesWithPrefix(p: string, s: string)
    requires NoNewline(p)
    ensures Lines(p + s) == [p + Lines(s)[0]] + Lines(s)[1..]
    decreases |p|
  {
    if p == [] {
      assert p + s == s;
      assert p + Lines(s)[0] == Lines(s)[0];
      assert [Lines(s)[0]] + Lines(s)[1..] == Lines(s);
    } else {
      assert (p + s)[1..] == p[1..] + s;
      assert NoNewline(p[1..]) by { assert forall c :: c in p[1..] ==> c in p; }
      LinesWithPrefix(p[1..], s);
      assert [p[0]] + (p[1..] + Lines(s)[0]) == p + Lines(s)[0];
    }
  }

  /** The joined bindings read back as one line per part, each after the first
      starting with the two tabs of the separator. */
  lemma {:induction false} LinesOfJoin(parts: seq<string>)
    requires |parts| > 0
    requires forall k :: 0 <= k < |parts| ==> NoNewline(parts[k])
    ensures Lines(Join(parts, Separator)) == [parts[0]] + seq(|parts| - 1, k requires 0 <= k < |parts| - 1 => "\t\t" + parts[k + 1])
    decreases |parts|
  {
    var n := |parts|;
    if n == 1 {
      LinesOfNewlineFree(parts[0]);
    } else {
      var init, last := parts[..n - 1], parts[n - 1];
      LinesOfJoin(init);
      var j := Join(init, Separator);
      assert j + Separator + last == j + "\n" + ("\t\t" + last);
      LinesAcrossNewline(j, "\t\t" + last);
      assert NoNewline("\t\t" + last);
      LinesOfNewlineFree("\t\t" + last);
    }
  }

  /** The indentation the template puts before binding `k`: the template's own
      four spaces before the first, the separator's two tabs before the rest. */
  function BindingIndent(k: nat): string
  {
    if k == 0 then "    " else "\t\t"
  }

  /** The binding lines the template produces: a single line of four spaces
      when there are no inputs, otherwise one line per input, in order. */
  function ExpectedBindingLines(inputs: seq<InputMetadata>): (r: seq<string>)
    ensures |r| == if inputs == [] then 1 else |inputs|
  {
    if inputs == [] then ["    "]
    else seq(|inputs|, k requires 0 <= k < |inputs| => BindingIndent(k) + Binding(inputs[k]))
  }

  lemma BindingLinesReadBack(inputs: seq<InputMetadata>)
    requires forall k :: 0 <= k < |inputs| ==> NoNewline(Binding(inputs[k]))
    ensures Lines("    " + Join(Bindings(inputs), Separator)) == ExpectedBindingLines(inputs)
  {
    var bs := Bindings(inputs);
    var j := Join(bs, Separator);
    LinesWithPrefix("    ", j);
    if inputs == [] {
      assert j == "";
      assert "    " + j == "    ";
      LinesOfNewlineFree("    ");
    } else {
      LinesOfJoin(bs);
    }
  }

  lemma {:induction false} ElementLines(open: string, body: string, close: string)
    requires NoNewline(open) && NoNewline(close)
    ensures Lines(open + "\n" + (body + "\n" + ("  >" + "\n" + close))) == [open] + Lines(body) + ["  >", close]
  {
    LinesAcrossNewline(open, body + "\n" + ("  >" + "\n" + close));
    LinesAcrossNewline(body, "  >" + "\n" + close);
    LinesAcrossNewline("  >", close);
    LinesOfNewlineFree(open);
    LinesOfNewlineFree("  >");
    LinesOfNewlineFree(close);
  }

  /** When no selector, name or default text contains a newline, the element reads
      back as the opening tag, then exactly one line per input holding its binding
      in input order (a single blank binding line when there are no inputs), then
      the `>` line and the closing tag. */
  lemma RenderedLines(m: ComponentMetadata)
    requires NoNewline(m.selector)
    requires forall k :: 0 <= k < |m.inputs| ==> NoNewline(Binding(m.inputs[k]))
    ensures Lines(RenderElement(m)) == ["<" + m.selector] + ExpectedBindingLines(m.inputs) + ["  >", "  </" + m.selector + ">"]
  {
    var open, close := "<" + m.selector, "  </" + m.selector + ">";
    var body := "    " + Join(Bindings(m.inputs), Separator);
    assert RenderElement(m) == open + "\n" + (body + "\n" + ("  >" + "\n" + close));
    ElementLines(open, body, close);
    BindingLinesReadBack(m.inputs);
  }

  /** The element as its opening part, the joined bindings and its closing part. */
  lemma ElementParts(m: ComponentMetadata)
    ensures RenderElement(m) == ("<" + m.selector + "\n    ") + Join(Bindings(m.inputs), Separator) + ("\n  >\n  " + ("</" + m.selector + ">"))
  {
  }

  /** The element as text, for any selector and any inputs: the opening tag,
      the template's four-space indent, the first binding, every later binding
      preceded by a newline and two tabs, then the `>` line and the closing tag. */
  lemma RenderedText(m: ComponentMetadata)
    ensures var open, close := "<" + m.selector + "\n    ", "\n  >\n  " + ("</" + m.selector + ">");
      && (m.inputs == [] ==> RenderElement(m) == open + close)
      && (m.inputs != [] ==>
            RenderElement(m) == open + Binding(m.inputs[0]) + Prefixed(Bindings(m.inputs[1..]), Separator) + close)
  {
    var open, close := "<" + m.selector + "\n    ", "\n  >\n  " + ("</" + m.selector + ">");
    var bs := Bindings(m.inputs);
    ElementParts(m);
    if m.inputs != [] {
      JoinPrefixed(bs, Separator);
      assert bs[1..] == Bindings(m.inputs[1..]);
      Regroup(open, bs[0], Prefixed(bs[1..], Separator), close);
    } else {
      assert Join(bs, Separator) == [];
      assert open + [] == open;
    }
  }

  lemma Regroup(a: string, b: string, c: string, d: string)
    ensures a + (b + c) + d == a + b + c + d
  {
  }
}
