/** `processDirectories` and `processComponent`
    (projects/sampler/src/generateExamples.ts:101-120) over an abstract directory
    tree: every directory is entered, every other entry whose name ends with
    `.component.ts` is processed, and the component's name is its file name with
    that suffix stripped, as `path.basename(p, '.component.ts')` does. Processing
    a file extracts its metadata and emits its example page; the first failure
    ends the whole run. */
module Walker {
  import opened Wrappers
  import opened Syntax
  import opened Metadata
  import opened Extraction
  import opened Render
  import Reader

  const ComponentSuffix := ".component.ts"

  /** A directory entry. A file carries the syntax tree its text parses to. */
  datatype Entry =
    | File(name: string, source: Node)
    | Directory(name: string, entries: seq<Entry>)

  /** A path as the list of its components, root first. */
  type Path = seq<string>

  predicate EndsWith(s: string, suffix: string)
  {
    |suffix| <= |s| && s[|s| - |suffix|..] == suffix
  }

  /** `path.basename(p, ext)` where the last component of `p` is `name`: the
      suffix is removed when the name ends with it, unless nothing would be left,
      in which case the name is kept whole. */
  function BaseName(name: string, ext: string): (r: string)
    ensures EndsWith(name, ext) && |ext| < |name| ==> r + ext == name
    ensures !(EndsWith(name, ext) && |ext| < |name|) ==> r == name
  {
    if EndsWith(name, ext) && |ext| < |name| then name[..|name| - |ext|] else name
  }

  /** A file handed to `processComponent`: its full path, its component name and
      its parsed contents. */
  datatype Job = Job(path: Path, componentName: string, source: Node)

  /** The jobs the walk produces from `entries` of directory `dir`, in walk order. */
  function Candidates(dir: Path, entries: seq<Entry>): seq<Job>
    decreases entries, 0
  {
    if entries == [] then []
    else Candidates(dir, entries[..|entries| - 1]) + EntryCandidates(dir, entries[|entries| - 1])
  }

  function EntryCandidates(dir: Path, e: Entry): seq<Job>
    decreases e, 1
  {
    match e
    case Directory(name, es) => Candidates(dir + [name], es)
    case File(name, source) =>
      if EndsWith(name, ComponentSuffix) then [Job(dir + [name], BaseName(name, ComponentSuffix), source)] else []
  }

  // ---------------------------------------------------------------------------
  // Reference: every file at any depth, then the suffix filter
  // ---------------------------------------------------------------------------

  /** A non-directory entry found somewhere below the walk's root. */
  datatype FoundFile = FoundFile(path: Path, name: string, source: Node)

  /** Every non-directory entry below `dir`, at any depth; its path lies under
      `dir` and ends with its name. */
  function AllFiles(dir: Path, entries: seq<Entry>): (r: seq<FoundFile>)
    ensures forall f :: f in r ==> |f.path| > |dir| && f.path[..|dir|] == dir && f.path[|f.path| - 1] == f.name
    decreases entries, 0
  {
    if entries == [] then []
    else AllFiles(dir, entries[..|entries| - 1]) + EntryFiles(dir, entries[|entries| - 1])
  }

  function EntryFiles(dir: Path, e: Entry): (r: seq<FoundFile>)
    ensures forall f :: f in r ==> |f.path| > |dir| && f.path[..|dir|] == dir && f.path[|f.path| - 1] == f.name
    decreases e, 1
  {
    match e
    case Directory(name, es) =>
      var r := AllFiles(dir + [name], es);
      assert forall f :: f in r ==> f.path[..|dir|] == (f.path[..|dir| + 1])[..|dir|];
      r
    case File(name, source) => [FoundFile(dir + [name], name, source)]
  }

  /** The component files among `fs`, in order, as jobs. */
  function ComponentJobs(fs: seq<FoundFile>): seq<Job>
    decreases |fs|
  {
    if fs == [] then []
    else
      var f := fs[|fs| - 1];
      ComponentJobs(fs[..|fs| - 1])
        + (if EndsWith(f.name, ComponentSuffix) then [Job(f.path, BaseName(f.name, ComponentSuffix), f.source)] else [])
  }

  lemma {:induction false} ComponentJobsConcat(a: seq<FoundFile>, b: seq<FoundFile>)
    ensures ComponentJobs(a + b) == ComponentJobs(a) + ComponentJobs(b)
    decreases |b|
  {
    if b == [] {
      assert a + b == a;
    } else {
      assert (a + b)[..|a + b| - 1] == a + b[..|b| - 1];
      ComponentJobsConcat(a, b[..|b| - 1]);
    }
  }

  lemma {:induction false} CandidatesFilterAllFiles(dir: Path, entries: seq<Entry>)
    ensures Candidates(dir, entries) == ComponentJobs(AllFiles(dir, entries))
    decreases entries, 0
  {
    if entries != [] {
      var init, last := entries[..|entries| - 1], entries[|entries| - 1];
      CandidatesFilterAllFiles(dir, init);
      EntryCandidatesFilterFiles(dir, last);
      ComponentJobsConcat(AllFiles(dir, init), EntryFiles(dir, last));
    }
  }

  lemma {:induction false} EntryCandidatesFilterFiles(dir: Path, e: Entry)
    ensures EntryCandidates(dir, e) == ComponentJobs(EntryFiles(dir, e))
    decreases e, 1
  {
    match e
    case Directory(name, es) =>
      CandidatesFilterAllFiles(dir + [name], es);
    case File(name, source) =>
      var f := FoundFile(dir + [name], name, source);
      assert [f][..0] == [];
  }

  lemma {:induction false} ComponentJobsMembers(fs: seq<FoundFile>, j: Job)
    ensures j in ComponentJobs(fs) <==>
      exists f :: f in fs && EndsWith(f.name, ComponentSuffix) && j == Job(f.path, BaseName(f.name, ComponentSuffix), f.source)
    decreases |fs|
  {
    if fs != [] {
      var init := fs[..|fs| - 1];
      ComponentJobsMembers(init, j);
      assert fs == init + [fs[|fs| - 1]];
    }
  }

  /** The walk processes exactly the non-directory entries, at any depth, whose
      name ends with `.component.ts`, in walk order. */
  lemma WalkSelectsComponentFiles(dir: Path, entries: seq<Entry>, j: Job)
    ensures Candidates(dir, entries) == ComponentJobs(AllFiles(dir, entries))
    ensures j in Candidates(dir, entries) <==>
      exists f :: f in AllFiles(dir, entries) && EndsWith(f.name, ComponentSuffix)
               && j == Job(f.path, BaseName(f.name, ComponentSuffix), f.source)
  {
    CandidatesFilterAllFiles(dir, entries);
    ComponentJobsMembers(AllFiles(dir, entries), j);
  }

  /** The name of the file a job comes from ends with `.component.ts`, and the
      job's component name followed by that suffix gives the name back (a file
      named just `.component.ts` keeps its whole name). */
  predicate NamedAfterFile(j: Job)
  {
    |j.path| > 0 &&
    var name := j.path[|j.path| - 1];
    && EndsWith(name, ComponentSuffix)
    && (name != ComponentSuffix ==> j.componentName + ComponentSuffix == name)
    && (name == ComponentSuffix ==> j.componentName == name)
  }

  /** Every job of the walk is named after its file. */
  lemma {:induction false} WalkNamesComponents(dir: Path, entries: seq<Entry>)
    ensures forall j :: j in Candidates(dir, entries) ==> NamedAfterFile(j)
    decreases entries, 0
  {
    if entries != [] {
      WalkNamesComponents(dir, entries[..|entries| - 1]);
      EntryNamesComponents(dir, entries[|entries| - 1]);
    }
  }

  lemma {:induction false} EntryNamesComponents(dir: Path, e: Entry)
    ensures forall j :: j in EntryCandidates(dir, e) ==> NamedAfterFile(j)
    decreases e, 1
  {
    match e
    case Directory(name, es) =>
      WalkNamesComponents(dir + [name], es);
    case File(name, _) =>
      if EndsWith(name, ComponentSuffix) {
        ComponentNameRoundTrip(name);
      }
  }

  /** Stripping the suffix from a component file's name and putting it back gives
      the name again, except for a name that is just the suffix, which is kept whole. */
  lemma ComponentNameRoundTrip(name: string)
    requires EndsWith(name, ComponentSuffix)
    ensures name != ComponentSuffix ==> BaseName(name, ComponentSuffix) + ComponentSuffix == name
    ensures name == ComponentSuffix ==> BaseName(name, ComponentSuffix) == name
  {
    if |name| == |ComponentSuffix| {
      assert name == name[|name| - |ComponentSuffix|..];
    }
  }

  // ---------------------------------------------------------------------------
  // Processing the jobs
  // ---------------------------------------------------------------------------

  /** An example page: the component's name (which names the output files) and
      its rendered element. */
  datatype Page = Page(componentName: string, element: string)

  /** The pages written, in order, and the failure that ended the run, if any. */
  datatype Run = Run(pages: seq<Page>, failure: Option<ExtractError>)

  /** `processComponent` for each job in turn; a failed extraction ends the run
      and the pages already written stay written. */
  function RunJobs(jobs: seq<Job>): (r: Run)
    ensures |r.pages| <= |jobs|
    ensures forall i :: 0 <= i < |r.pages| ==>
      Extract(jobs[i].source).Ok? && r.pages[i] == Page(jobs[i].componentName, RenderElement(Extract(jobs[i].source).value))
    ensures r.failure.None? ==> |r.pages| == |jobs|
    ensures r.failure.Some? ==> |r.pages| < |jobs| && Extract(jobs[|r.pages|].source) == Err(r.failure.value)
    decreases |jobs|
  {
    if jobs == [] then Run([], None)
    else
      var before := RunJobs(jobs[..|jobs| - 1]);
      var last := jobs[|jobs| - 1];
      if before.failure.Some? then before
      else
        match Extract(last.source)
        case Err(e) => Run(before.pages, Some(e))
        case Ok(md) => Run(before.pages + [Page(last.componentName, RenderElement(md))], None)
  }

  lemma {:induction false} RunJobsConcat(a: seq<Job>, b: seq<Job>)
    ensures RunJobs(a + b) ==
      if RunJobs(a).failure.Some? then RunJobs(a) else Run(RunJobs(a).pages + RunJobs(b).pages, RunJobs(b).failure)
    decreases |b|
  {
    if b == [] {
      assert a + b == a;
      assert RunJobs(a).pages + [] == RunJobs(a).pages;
    } else {
      assert (a + b)[..|a + b| - 1] == a + b[..|b| - 1];
      RunJobsConcat(a, b[..|b| - 1]);
      if RunJobs(a).failure.None? && RunJobs(b[..|b| - 1]).failure.None? {
        match Extract(b[|b| - 1].source)
        case Err(_) =>
        case Ok(md) =>
          var p := Page(b[|b| - 1].componentName, RenderElement(md));
          assert RunJobs(a).pages + RunJobs(b[..|b| - 1]).pages + [p] == RunJobs(a).pages + (RunJobs(b[..|b| - 1]).pages + [p]);
      }
    }
  }

  /** `processDirectories(dir)` over the listing `entries`: the pages it writes
      and the failure that ends it are those of processing the walk's jobs in order. */
  method ProcessDirectories(dir: Path, entries: seq<Entry>) returns (run: Run)
    ensures run == RunJobs(Candidates(dir, entries))
    decreases entries
  {
    var pages: seq<Page> := [];
    var i := 0;
    while i < |entries|
      invariant 0 <= i <= |entries|
      invariant RunJobs(Candidates(dir, entries[..i])) == Run(pages, None)
    {
      RunStep(dir, entries, i);
      var sub := ProcessEntry(dir, entries[i]);
      if sub.failure.Some? {
        run := Run(pages + sub.pages, sub.failure);
        CandidatesFailureAborts(dir, entries, i + 1);
        return;
      }
      pages := pages + sub.pages;
      i := i + 1;
    }
    assert entries[..i] == entries;
    run := Run(pages, None);
  }

  /** The callback `processDirectories` runs on each entry of `dir`: a directory
      is walked, a component file is processed, anything else is skipped. */
  method ProcessEntry(dir: Path, e: Entry) returns (sub: Run)
    ensures sub == RunJobs(EntryCandidates(dir, e))
    decreases e
  {
    match e {
      case Directory(name, es) =>
        sub := ProcessDirectories(dir + [name], es);
      case File(name, source) =>
        if EndsWith(name, ComponentSuffix) {
          var componentName := BaseName(name, ComponentSuffix);
          var md := Reader.ReadComponentMetadata(source);
          RunSingle(Job(dir + [name], componentName, source));
          if md.Err? {
            sub := Run([], Some(md.error));
          } else {
            sub := Run([Page(componentName, RenderElement(md.value))], None);
          }
        } else {
          sub := Run([], None);
        }
    }
  }

  /** One more entry of the listing: after a walk over the first `i` entries
      that has not failed, the walk goes on with the jobs of entry `i`. */
  lemma RunStep(dir: Path, entries: seq<Entry>, i: nat)
    requires i < |entries| && RunJobs(Candidates(dir, entries[..i])).failure.None?
    ensures var before, now := RunJobs(Candidates(dir, entries[..i])), RunJobs(EntryCandidates(dir, entries[i]));
      RunJobs(Candidates(dir, entries[..i + 1])) == Run(before.pages + now.pages, now.failure)
  {
    assert entries[..i + 1][..i] == entries[..i];
    RunJobsConcat(Candidates(dir, entries[..i]), EntryCandidates(dir, entries[i]));
  }

  /** Processing a single component file writes its page, or fails with its
      extraction error. */
  lemma RunSingle(job: Job)
    ensures RunJobs([job]) ==
      match Extract(job.source)
      case Err(e) => Run([], Some(e))
      case Ok(md) => Run([Page(job.componentName, RenderElement(md))], None)
  {
    assert [job][..0] == [];
  }

  /** Once the walk over a prefix of the listing has failed, the whole walk fails the same way. */
  lemma {:induction false} CandidatesFailureAborts(dir: Path, entries: seq<Entry>, k: nat)
    requires k <= |entries| && RunJobs(Candidates(dir, entries[..k])).failure.Some?
    ensures RunJobs(Candidates(dir, entries)) == RunJobs(Candidates(dir, entries[..k]))
    decreases |entries|
  {
    if k < |entries| {
      var init := entries[..|entries| - 1];
      assert init[..k] == entries[..k];
      CandidatesFailureAborts(dir, init, k);
      RunJobsConcat(Candidates(dir, init), EntryCandidates(dir, entries[|entries| - 1]));
    } else {
      assert entries[..k] == entries;
    }
  }
}
