# Component example sampler, modelled in Dafny

The sampler script of the mekor component library walks the library's source
folder. It picks out every Angular component file (a name ending in
`.component.ts`) and reads the component's metadata from the file's syntax
tree:

- the `selector` and `standalone` entries of the `@Component({...})` decorator;
- one entry per `@Input()` property, with its name, type text and initializer text.

For each component it then writes an example page. The page holds the
component's element with one `[name]=default` binding per input.

This project models that core over abstract data. The TypeScript parser's
output becomes a small syntax-tree datatype, and the file system becomes a
directory-tree datatype. The project has these parts:

- `syntax.dfy` holds the syntax tree (`Syntax`) and the metadata records (`Metadata`).
- `extraction.dfy` (`Extraction`) holds the traversal `visit` as a fold that threads the three accumulators through a pre-order walk.
  - It also holds an independent reference definition: the list of writes a tree makes (`WritesOf`) and the last-write-wins settlement of those writes (`Settle`).
  - Lemmas connect the two, and further lemmas state the traversal's properties.
- `reader.dfy` (`Reader`) holds `readComponentMetadata` as imperative code.
  - A `MetadataReader` object holds the three accumulators as fields.
  - Its loop and recursive methods are proved to change those fields exactly as the fold does.
- `render.dfy` (`Render`) renders the element and the bindings, and reads the rendered text back as lines.
- `walker.dfy` (`Walker`) holds the directory walk as a recursive method, the `.component.ts` filter, the `path.basename` suffix stripping, and the run over the selected files.
- `button_example.dfy` (`ButtonExample`) holds the button component's syntax tree as a concrete test vector, and what extraction, rendering and the walk produce for it.

The source's two unchecked casts are modelled as errors (`ExtractError`):

- the first argument of `Component(...)` is cast to an object literal without a check;
- a `selector` initializer is read as a string literal without a check, and its `.text` is stored.

In the syntax tree, an initializer that has a `.text` is a `TextLit` carrying that
text. This covers a string literal, a template literal without substitutions,
an identifier and a numeric literal, all of which the source reads successfully.

For the first cast, reading `.properties` of a non-object argument gives
`undefined`, and the `.forEach` call on it throws. That ends the whole run. The
model does the same: the error ends extraction, and the walk's run ends at the
first failing file. For the second cast the model's error is stricter than the
source (see "## Left out").

## Model

| member | source | states |
|---|---|---|
| Extraction.Extract | projects/sampler/src/generateExamples.ts:19-63 | Definition without a contract of its own: `visit` run from the initial accumulators (lines 22-24, 61-62). Its properties are stated by `Extraction.ExtractMeaning`, `ExtractInputCount` and `ExtractDefaults`. |
| Extraction.VisitNode | projects/sampler/src/generateExamples.ts:26-59 | Definition without a contract of its own: `visit` on one node as a fold over the accumulators. Its properties are stated by `Extraction.VisitNodeSettles`. |
| Extraction.VisitChildren | projects/sampler/src/generateExamples.ts:58 | Definition without a contract of its own: `forEachChild(node, visit)` in child order, stopping at the first error. Its properties are stated by `Extraction.VisitChildrenSettles` and `VisitChildrenConcat`. |
| Extraction.ApplyProperty | projects/sampler/src/generateExamples.ts:35-40 | Definition without a contract of its own: one property of the `Component` object literal. Its properties are stated by `Extraction.ApplyPropertiesSettles`. |
| Extraction.ApplyProperties | projects/sampler/src/generateExamples.ts:34-42 | Definition without a contract of its own: the `forEach` over the literal's properties. Its properties are stated by `Extraction.ApplyPropertiesSettles` and `PropertiesFailureAborts`. |
| Extraction.ApplyClassDecorator | projects/sampler/src/generateExamples.ts:30-44 | Definition without a contract of its own: one class decorator. Its properties are stated by `Extraction.ApplyClassDecoratorSettles`. |
| Extraction.ApplyClassDecorators | projects/sampler/src/generateExamples.ts:28-45 | Definition without a contract of its own: the `forEach` over a class's decorators. Its properties are stated by `Extraction.ApplyClassDecoratorsSettles` and `ClassDecoratorsFailureAborts`. |
| Extraction.ApplyPropertyDecorators | projects/sampler/src/generateExamples.ts:48-56 | Definition without a contract of its own: the `forEach` over a property's decorators. Its properties are stated by `Extraction.ApplyPropertyDecoratorsAppends`. |
| Extraction.InputOf | projects/sampler/src/generateExamples.ts:51-54 | Definition without a contract of its own: the `{name, type, defaultValue}` record pushed for a property. It is used by `Extraction.ApplyPropertyDecoratorsAppends`. |
| Extraction.VisitNodeSettles | projects/sampler/src/generateExamples.ts:26-59 | Visiting a node succeeds iff every `Component` call's first argument is an object literal and every `selector` initializer has a `.text`. On success, the accumulators are those from settling the node's writes in pre-order (decorators, then children) on top of the incoming state. |
| Extraction.VisitChildrenSettles | projects/sampler/src/generateExamples.ts:58 | Visiting children in order succeeds iff each child is well shaped, and the result settles the children's writes concatenated in order. |
| Extraction.ExtractMeaning | projects/sampler/src/generateExamples.ts:19-63 | Extraction succeeds iff the tree is well shaped. The selector is the text of the last `selector` assignment met, or `""` if none. `standalone` is true iff the last `standalone` initializer met is the `true` keyword. The inputs are exactly the input writes in pre-order. |
| Extraction.ApplyPropertiesSettles | projects/sampler/src/generateExamples.ts:34-42 | The property loop of the object literal succeeds iff every `selector` initializer has a `.text`. On success, each `selector`/`standalone` assignment overwrites its field in order, and the last write wins. |
| Extraction.ApplyClassDecoratorSettles | projects/sampler/src/generateExamples.ts:30-43 | A class decorator fails iff it is a `Component` call with arguments whose first argument is not an object literal, or whose literal assigns `selector` from an initializer without a `.text`. On success, it settles the literal's `selector`/`standalone` assignments in order. |
| Extraction.ApplyClassDecoratorsSettles | projects/sampler/src/generateExamples.ts:28-45 | The class decorator loop succeeds iff every decorator does, and it settles all of their writes in list order. |
| Extraction.ApplyPropertyDecoratorsAppends | projects/sampler/src/generateExamples.ts:47-56 | A property declaration appends one copy of its `{name, type, defaultValue}` per `Input(...)` call decorator, with no dedup. It changes nothing else. |
| Extraction.SettleThen | projects/sampler/src/generateExamples.ts:36-39 | Settling two write lists one after the other equals settling their concatenation. This is the last-write-wins overwrite. |
| Extraction.AllTextualConcat | projects/sampler/src/generateExamples.ts:37 | A concatenation of selector initializers all have a `.text` iff both parts do. |
| Extraction.InputWritesCounted | projects/sampler/src/generateExamples.ts:47-58 | A tree writes exactly as many inputs as it has `Input(...)` call decorators on property declarations. |
| Extraction.InputWritesCountedAll | projects/sampler/src/generateExamples.ts:58 | The same count holds for a sequence of sibling trees. |
| Extraction.ClassDecoratorsWriteNoInputs | projects/sampler/src/generateExamples.ts:27-46 | Class decorators never add inputs. |
| Extraction.ExtractInputCount | projects/sampler/src/generateExamples.ts:47-56 | On success, the number of extracted inputs equals the number of `Input(...)` call decorators on property declarations anywhere in the tree. |
| Extraction.UnmarkedClassDecoratorsWriteNothing | projects/sampler/src/generateExamples.ts:30 | Class decorators with no `Component(...)` call write nothing. |
| Extraction.UnmarkedInputCallsNone | projects/sampler/src/generateExamples.ts:50 | Property decorators with no `Input(...)` call count no inputs. |
| Extraction.UnmarkedWritesNothing | projects/sampler/src/generateExamples.ts:26-59 | A tree without `Component`/`Input` calls is well shaped and writes nothing. |
| Extraction.UnmarkedWritesNothingAll | projects/sampler/src/generateExamples.ts:58 | The same holds for a sequence of sibling trees. |
| Extraction.ExtractDefaults | projects/sampler/src/generateExamples.ts:22-24 | A tree with no `Component(...)` or `Input(...)` call decorators yields selector `""`, standalone `false` and no inputs. |
| Extraction.OtherClassDecoratorsIgnored | projects/sampler/src/generateExamples.ts:30 | Class decorators that are not calls, or whose callee is not exactly `Component`, can be removed without changing the result. |
| Extraction.OtherPropertyDecoratorsIgnored | projects/sampler/src/generateExamples.ts:50 | Property decorators that are not calls, or whose callee is not exactly `Input`, can be removed without changing the result. |
| Extraction.NoAssignmentsToKey | projects/sampler/src/generateExamples.ts:35-38 | An object literal with no assignment named `key` assigns nothing to `key`. |
| Extraction.ComponentWithoutKeysKeepsMetadata | projects/sampler/src/generateExamples.ts:31-41 | A `Component()` call with no arguments, or with an object literal that has no `selector`/`standalone` assignment, leaves the metadata unchanged. |
| Extraction.StandaloneLaterFalseOverrides | projects/sampler/src/generateExamples.ts:38-39 | `standalone: true` followed by `standalone: false` leaves `standalone` false, whatever it was before. |
| Extraction.VisitChildrenConcat | projects/sampler/src/generateExamples.ts:58 | Visiting `a + b` is visiting `a` and then, if that succeeded, visiting `b` from its result. |
| Extraction.UnmarkedChildrenKeepMetadata | projects/sampler/src/generateExamples.ts:58 | Children without `Component`/`Input` calls leave the metadata unchanged. |
| Extraction.PropertiesFailureAborts | projects/sampler/src/generateExamples.ts:34-37 | Once a prefix of the properties fails, the properties after it do not change the result. |
| Extraction.ClassDecoratorsFailureAborts | projects/sampler/src/generateExamples.ts:29-33 | Once a prefix of the class decorators fails, the decorators after it do not change the result. |
| Extraction.ChildrenFailureAborts | projects/sampler/src/generateExamples.ts:58 | Once a prefix of the children fails, the later children do not change the result. |
| Extraction.AssignedMeaning | projects/sampler/src/generateExamples.ts:34-38 | The initializers collected for a key are exactly those of the key's assignments in the literal, in both directions. None are collected exactly when no property is assigned to the key. |
| Extraction.CountCalls | projects/sampler/src/generateExamples.ts:49-50 | The count of calls to a callee is at most the number of decorators. It is zero exactly when no decorator is a call to that callee. |
| Extraction.CallsTo | projects/sampler/src/generateExamples.ts:30 | A decorator is kept iff it is in the list and is a call to the callee, so every such call is kept. There are exactly `CountCalls` of them. |
| Reader.MetadataReader.constructor | projects/sampler/src/generateExamples.ts:22-24 | A new reader starts from selector `""`, standalone `false` and no inputs. |
| Reader.MetadataReader.VisitComponentProperties | projects/sampler/src/generateExamples.ts:34-42 | The loop over the object literal's properties leaves the fields as the property fold does. It reports the error at which the fold fails. |
| Reader.MetadataReader.VisitClassDecorators | projects/sampler/src/generateExamples.ts:28-45 | The loop over a class's decorators leaves the fields as the class-decorator fold does, or reports its error. |
| Reader.MetadataReader.VisitPropertyDecorators | projects/sampler/src/generateExamples.ts:48-56 | The loop over a property's decorators pushes onto `inputs` exactly as the property-decorator fold does. |
| Reader.MetadataReader.Visit | projects/sampler/src/generateExamples.ts:26-59 | The recursive `visit` leaves the fields as `VisitNode` does, or reports its error. |
| Reader.ReadComponentMetadata | projects/sampler/src/generateExamples.ts:19-63 | The imperative reader returns exactly `Extract(root)`. |
| Render.DefaultText | projects/sampler/src/generateExamples.ts:77 | Definition without a contract of its own: the initializer text, or `null` when there is none. Its use is stated by `Render.RenderedLines`. |
| Render.Binding | projects/sampler/src/generateExamples.ts:77 | Definition without a contract of its own: `[name]=default`, inserted verbatim. Its use is stated by `Render.Bindings` and `Render.RenderedText`. |
| Render.Join | projects/sampler/src/generateExamples.ts:77 | Definition without a contract of its own: `Array.prototype.join`. Its properties are stated by `Render.JoinPrefixed`, `LinesOfJoin` and `LinesJoinBack`. |
| Render.Prefixed | projects/sampler/src/generateExamples.ts:77 | Definition without a contract of its own: every part preceded by the separator. Its properties are stated by `Render.PrefixedSnoc` and `Render.JoinPrefixed`. |
| Render.PrefixedSnoc | projects/sampler/src/generateExamples.ts:77 | Adding a part at the end adds the separator and that part at the end. |
| Render.JoinPrefixed | projects/sampler/src/generateExamples.ts:77 | A non-empty join is its first part followed by every later part, each preceded by the separator. |
| Render.Bindings | projects/sampler/src/generateExamples.ts:77 | There is one binding per input, in input order, and each is `[name]=default`. |
| Render.RenderElement | projects/sampler/src/generateExamples.ts:76-79 | The element text starts with `<` + selector and ends with `</` + selector + `>`. |
| Render.Lines | projects/sampler/src/generateExamples.ts:77 | Splitting text on newlines gives at least one line. |
| Render.LinesHaveNoNewline | projects/sampler/src/generateExamples.ts:77 | No line of a split contains a newline. |
| Render.LinesJoinBack | projects/sampler/src/generateExamples.ts:77 | Splitting on newlines loses nothing: joining the lines with a newline gives the text back. |
| Render.LinesOfNewlineFree | projects/sampler/src/generateExamples.ts:77 | Text without a newline reads back as itself. |
| Render.LinesAcrossNewline | projects/sampler/src/generateExamples.ts:76-79 | The lines of `a` + newline + `b` are the lines of `a` followed by the lines of `b`. |
| Render.LinesWithPrefix | projects/sampler/src/generateExamples.ts:77 | A newline-free prefix attaches to the first line only. |
| Render.LinesOfJoin | projects/sampler/src/generateExamples.ts:77 | Joining newline-free parts with `'\n\t\t'` reads back as the parts, one per line, with every line after the first indented by two tabs. |
| Render.BindingLinesReadBack | projects/sampler/src/generateExamples.ts:77 | The rendered binding block reads back as the expected lines: binding `k` alone on line `k`, in input order. |
| Render.ElementLines | projects/sampler/src/generateExamples.ts:76-79 | The element reads back as the opening-tag line, the body's lines, the `>` line and the closing-tag line. |
| Render.RenderedLines | projects/sampler/src/generateExamples.ts:76-79 | With a newline-free selector and bindings, the element reads back as `<selector`, then exactly one line per input holding `[name]=default` in order (an absent default reads `null`), then `  >` and `  </selector>`. |
| Render.RenderedText | projects/sampler/src/generateExamples.ts:76-79 | For any selector and inputs, newlines included, the element is: `<` + selector, a newline and four spaces, then the first binding, then each later binding after a newline and two tabs, in input order, then `\n  >\n  </` + selector + `>`. With no inputs, the binding part is empty. |
| Walker.EndsWith | projects/sampler/src/generateExamples.ts:116 | Definition without a contract of its own: `String.prototype.endsWith`. Its use is stated by `Walker.WalkSelectsComponentFiles`. |
| Walker.BaseName | projects/sampler/src/generateExamples.ts:103 | The stripped name followed by the suffix gives back the name when the name ends with the suffix and is longer than it. Otherwise the name is kept whole. |
| Walker.Candidates | projects/sampler/src/generateExamples.ts:110-119 | Definition without a contract of its own: the jobs the walk produces from a listing, in walk order. Its properties are stated by `Walker.CandidatesFilterAllFiles`, `WalkSelectsComponentFiles` and `WalkNamesComponents`. |
| Walker.EntryCandidates | projects/sampler/src/generateExamples.ts:113-118 | Definition without a contract of its own: the jobs of one entry. A directory is walked, a `.component.ts` file gives one job, and anything else gives none. Its properties are stated by `Walker.EntryCandidatesFilterFiles` and `EntryNamesComponents`. |
| Walker.AllFiles | projects/sampler/src/generateExamples.ts:110-119 | Every file found lies under the directory, and its path ends with its name. |
| Walker.EntryFiles | projects/sampler/src/generateExamples.ts:113-115 | The same holds for one entry. |
| Walker.ComponentJobsConcat | projects/sampler/src/generateExamples.ts:116 | The suffix filter distributes over concatenation. |
| Walker.CandidatesFilterAllFiles | projects/sampler/src/generateExamples.ts:110-119 | The walk's jobs are exactly the found files, at any depth, that end in `.component.ts`, in walk order. |
| Walker.EntryCandidatesFilterFiles | projects/sampler/src/generateExamples.ts:113-118 | The same holds for one entry. |
| Walker.ComponentJobsMembers | projects/sampler/src/generateExamples.ts:116-117 | A job is selected iff it comes from a found file that ends in `.component.ts`, named by `BaseName`. |
| Walker.WalkSelectsComponentFiles | projects/sampler/src/generateExamples.ts:110-119 | The walk processes exactly the non-directory entries at any depth whose name ends in `.component.ts`, in walk order: a job is produced iff it comes from such a file. |
| Walker.ComponentNameRoundTrip | projects/sampler/src/generateExamples.ts:103 | For a name ending in `.component.ts`, the derived component name followed by the suffix gives back the name. A name that is just the suffix is kept whole. |
| Walker.WalkNamesComponents | projects/sampler/src/generateExamples.ts:103-119 | Every job of the walk comes from a file whose name ends in `.component.ts`, and the job's component name followed by the suffix is that file name (except for a file named just the suffix). |
| Walker.EntryNamesComponents | projects/sampler/src/generateExamples.ts:113-118 | The same holds for the jobs of one entry. |
| Walker.RunJobs | projects/sampler/src/generateExamples.ts:102-107 | Each page written is the job's component name with the element rendered from its extracted metadata, in job order. A run without failure writes one page per job. A failed run stops at the first job whose extraction fails and reports that error. |
| Walker.RunJobsConcat | projects/sampler/src/generateExamples.ts:112-119 | Running `a + b` is running `a`, then `b` only if `a` did not fail. |
| Walker.ProcessDirectories | projects/sampler/src/generateExamples.ts:110-119 | The loop over a directory's listing writes exactly the pages of running the selected jobs in walk order, and stops at the same failure. |
| Walker.ProcessEntry | projects/sampler/src/generateExamples.ts:112-119 | The per-entry callback walks a directory, processes a `.component.ts` file and skips anything else. It produces exactly the run of that entry's jobs. |
| Walker.RunStep | projects/sampler/src/generateExamples.ts:112-119 | After a walk over the first `i` entries that has not failed, entry `i` adds the pages of its own jobs and decides whether the walk fails. |
| Walker.RunSingle | projects/sampler/src/generateExamples.ts:102-107 | Processing one component file writes its page, named by the component, from its extracted metadata, or fails with the extraction error. |
| Walker.CandidatesFailureAborts | projects/sampler/src/generateExamples.ts:112-119 | Once a failure occurs among the first `k` entries, the later entries change nothing. |
| ButtonExample.ButtonDecoratorApplied | projects/mekor-lib/src/lib/button/button.component.ts:4-10 | The button's `@Component` decorator sets selector `mekor-lib-button` and standalone `true`. |
| ButtonExample.ButtonClassVisited | projects/mekor-lib/src/lib/button/button.component.ts:4-17 | Visiting the button class yields the selector, `standalone` and the five inputs. |
| ButtonExample.ButtonMetadataExtracted | projects/mekor-lib/src/lib/button/button.component.ts:4-17 | Extracting the button file yields selector `mekor-lib-button` and standalone `true`. It also yields the inputs label, disabled, type, size and font, in that order, with their type and default texts. `buttonClick` (an `@Output`) is excluded. |
| ButtonExample.PropertiesVisited | projects/mekor-lib/src/lib/button/button.component.ts:12-17 | The six property declarations push the five `@Input` properties in order. |
| ButtonExample.ButtonBindingsOnOneLine | projects/mekor-lib/src/lib/button/button.component.ts:12-16 | No binding of the button contains a newline. |
| ButtonExample.ButtonElementRendered | projects/sampler/src/generateExamples.ts:76-79 | The button's element reads back as eight lines: the opening tag, five binding lines in input order, `  >` and the closing tag. |
| ButtonExample.ComponentFileNamed | projects/sampler/src/generateExamples.ts:103 | `stem.component.ts` passes the filter and is named `stem`. |
| ButtonExample.TemplateAndStyleSkipped | projects/sampler/src/generateExamples.ts:116 | The button's `.html` and `.scss` files do not end in `.component.ts`, so the walk skips them. |
| ButtonExample.CandidatesSnoc | projects/sampler/src/generateExamples.ts:112-119 | Walking one more entry appends that entry's jobs after those of the earlier entries. |
| ButtonExample.ButtonFolderWalked | projects/sampler/src/generateExamples.ts:110-119 | In the button's folder (`.ts`, `.html`, `.scss`), only the `.component.ts` file is processed, under the name `button`. |
| ButtonExample.LibraryWalked | projects/sampler/src/generateExamples.ts:110-119 | In a library holding the button's folder (`.ts`, `.html`, `.scss`) and one more component file, the walk yields exactly the two component jobs, named `button` and `plain`. |

## Left out

- The TypeScript compiler API (`createSourceFile`, `getText`, `getDecorators`, `forEachChild`) is not modelled. Its output is the `Syntax.Node` tree, with node texts given.
- Parse errors are not modelled. Every file is assumed to parse to some tree.
- File-system I/O is not modelled: reading, listing, `stat`, `existsSync`/`mkdirSync` and `writeFileSync`. Listing order is whatever the `entries` sequence gives.
- Extraction.ApplyProperty: a `selector` initializer without a `.text` (a call, a binary expression, `true`, an object) is not modelled as the source handles it (line 37). The source stores `undefined` as the selector, writes the page and the walk goes on. The model reports `SelectorWithoutText`, and the walk's run stops at that file. Initializers with a `.text` (string literals, template literals without substitutions, identifiers, numeric literals) are read as the source reads them.
- Render.RenderedLines: the line-by-line reading of the element needs a newline-free selector, names and initializer texts. A multi-line initializer is rendered verbatim, and for it only `Render.RenderedText` states where the bindings are, as text rather than as lines.
- The fixed HTML boilerplate around the element (doctype, head, title, body) is not modelled. Neither is the placeholder `.js` page text.
- The output file names (`<componentName>.html` and `.js`) are not modelled: two components with the same name overwrite each other's files. `Walker.Run` keeps every page written, in order.
- The input's type text is extracted but not rendered, as in the source.
- An absent initializer renders as `null`, because the source stores `null` and the template interpolates it.
