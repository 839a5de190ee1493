/** `split_pdf` of Tools/split_pdf.py: check the source, resolve the page
    selection, the base name and the output directory, then write one
    single-page PDF per selected page and report progress after each. The
    PDF library and the file system are abstracted: a document is its
    sequence of pages and an encrypted flag, the file system a map from path
    to entry, and the progress callback a recorded sequence of events. */
module PdfSplit {
  import opened Wrappers
  import PyStr
  import PosixPath
  import PageSelection
  import NameFormat

  /** The content of one page, left abstract. */
  datatype Page = Page(content: nat)

  /** What the PDF reader makes of a file. */
  datatype Document = Document(pages: seq<Page>, encrypted: bool)

  /** A file-system entry: a directory, a readable PDF, or any other file
      (which the reader rejects). */
  datatype Entry = Directory | PdfFile(doc: Document) | OtherFile

  datatype SplitError =
    | SourceNotFound(path: string)      // FileNotFoundError from the isfile check
    | Unreadable(path: string)          // the reader's error on a non-PDF file
    | Encrypted                         // RuntimeError("PDF is encrypted")
    | BadSelection(selectionError: PageSelection.SelectionError)  // ValueError from parse_pages
    | DirNotFound(path: string)         // FileNotFoundError from os.makedirs or open: no parent, or ""
    | FileExists(path: string)          // FileExistsError from os.makedirs: a file holds the name
    | NotADirectory(path: string)       // NotADirectoryError: a file holds the parent's name
    | BadPattern(formatError: NameFormat.FormatError)          // raised by pattern.format
    | IsADirectory(path: string)        // IsADirectoryError from open(..., "wb")

  /** The arguments of one call; `report` says whether `progress_cb` is set. */
  datatype Request = Request(pdfPath: string, outDir: Option<string>, pattern: string,
                             pages: Option<string>, report: bool)

  /** What is fixed before the loop starts. */
  datatype Job = Job(doc: Document, indexes: seq<int>, base: string, outDir: string)

  /** The state a run leaves behind: the file system, the progress events,
      the paths written in order, and the error that stopped it, if any. */
  datatype Run = Run(files: map<string, Entry>, events: seq<(nat, nat)>,
                     written: seq<string>, error: Option<SplitError>)

  predicate ValidJob(job: Job) {
    forall k :: 0 <= k < |job.indexes| ==> 0 <= job.indexes[k] < |job.doc.pages|
  }

  // ---------------------------------------------------------------------
  // Specification
  // ---------------------------------------------------------------------

  /** `out_dir or os.path.dirname(pdf_path)`. */
  function OutputDirectory(req: Request): string {
    if req.outDir == None || req.outDir.value == "" then PosixPath.Dirname(req.pdfPath)
    else req.outDir.value
  }

  /** `os.path.splitext(os.path.basename(pdf_path))[0]`. */
  function BaseName(pdfPath: string): (r: string)
    ensures forall k :: 0 <= k < |r| ==> r[k] != PosixPath.Sep
  {
    var b := PosixPath.Basename(pdfPath);
    var parts := PosixPath.Splitext(b);
    assert b == parts.0 + parts.1;
    AllButSep(parts.0, parts.1);
    parts.0
  }

  lemma AllButSep(a: string, b: string)
    requires forall k :: 0 <= k < |a + b| ==> (a + b)[k] != PosixPath.Sep
    ensures forall k :: 0 <= k < |a| ==> a[k] != PosixPath.Sep
  {
    forall k | 0 <= k < |a| ensures a[k] != PosixPath.Sep {
      assert a[k] == (a + b)[k];
    }
  }

  /** The checks and computations before the output directory is touched,
      in the order the source makes them. */
  function Prepare(files: map<string, Entry>, req: Request): (r: Result<Job, SplitError>)
    ensures r.Ok? ==> ValidJob(r.value) && PlainBase(r.value)
  {
    var p := req.pdfPath;
    if p !in files || files[p].Directory? then Err(SourceNotFound(p))
    else if files[p].OtherFile? then Err(Unreadable(p))
    else if files[p].doc.encrypted then Err(Encrypted)
    else
      var doc := files[p].doc;
      var sel := PageSelection.Selection(req.pages, |doc.pages|);
      if sel.Err? then Err(BadSelection(sel.error))
      else
        PageSelection.SelectionIsCanonical(req.pages, |doc.pages|);
        Ok(Job(doc, sel.value, BaseName(p), OutputDirectory(req)))
  }

  predicate IsDirectoryIn(files: map<string, Entry>, path: string) {
    path in files && files[path].Directory?
  }

  /** Whether `d` names a directory: a name made of slashes only (the
      root, or "" for the current directory), a directory entry, or a
      name ending in the component "." inside such a directory. */
  predicate DirectoryAt(files: map<string, Entry>, d: string)
    decreases |d|
  {
    PosixPath.AllSep(d) || IsDirectoryIn(files, d) || d == "."
    || (|d| >= 2 && d[|d| - 1] == '.' && d[|d| - 2] == PosixPath.Sep
        && DirectoryAt(files, PosixPath.TrimSep(d[..|d| - 2])))
  }

  /** `os.path.exists(p)`. */
  predicate Exists(files: map<string, Entry>, p: string) {
    p in files || (p != "" && DirectoryAt(files, p))
  }

  /** A file system in which every entry is named without a trailing
      slash and sits in a directory that is there. */
  predicate WellFormed(files: map<string, Entry>) {
    forall p {:trigger Placed(files, p)} :: p in files ==> Placed(files, p)
  }

  /** Entry `p` is named without a trailing slash and sits in a directory
      that is there. */
  predicate Placed(files: map<string, Entry>, p: string) {
    PosixPath.Named(p) && DirectoryAt(files, PosixPath.Dirname(p))
  }

  /** The error `os.mkdir(name)` raises that `os.makedirs` lets through:
      ENOENT for the empty name or a missing parent, ENOTDIR when the
      parent is a file, EEXIST when the name is a file. An existing
      directory is no error. */
  function MkdirError(files: map<string, Entry>, name: string): Option<SplitError> {
    if name == "" then Some(DirNotFound(name))
    else if PosixPath.AllSep(name) then None
    else
      var key := PosixPath.RStripSep(name);
      var parent := PosixPath.Dirname(key);
      if !DirectoryAt(files, parent) then
        Some(if parent in files then NotADirectory(name) else DirNotFound(name))
      else if !DirectoryAt(files, key) && key in files then Some(FileExists(name))
      else None
  }

  /** When `os.mkdir` would succeed, the name is known by a name with a
      last component, inside a directory, that is a directory already or
      is free. */
  lemma MkdirErrorNone(files: map<string, Entry>, name: string)
    requires MkdirError(files, name) == None
    ensures name != ""
    ensures !PosixPath.AllSep(name) ==>
      var key := PosixPath.RStripSep(name);
      PosixPath.TrimSep(name) == key && PosixPath.Named(key)
      && DirectoryAt(files, PosixPath.Dirname(key)) && (DirectoryAt(files, key) || key !in files)
  {
    if !PosixPath.AllSep(name) {
      TrimmedKey(name);
    }
  }

  /** FileExistsError names a file that is no directory. */
  lemma MkdirErrorExists(files: map<string, Entry>, name: string)
    requires MkdirError(files, name).Some? && MkdirError(files, name).value.FileExists?
    ensures PosixPath.TrimSep(name) in files && !files[PosixPath.TrimSep(name)].Directory?
  {
    assert name != "" && !PosixPath.AllSep(name);
    var key := PosixPath.RStripSep(name);
    assert !DirectoryAt(files, key) && key in files;
    assert !IsDirectoryIn(files, key);
    TrimmedKey(name);
  }

  /** `os.mkdir(name)` together with the test `os.makedirs` makes when it
      fails: an existing directory is no error. The file system afterwards
      and the error raised, if any. */
  function Mkdir(files: map<string, Entry>, name: string): (r: (map<string, Entry>, Option<SplitError>))
    ensures r.1.Some? ==> r.0 == files
    ensures r.1 == None ==> name != "" && DirectoryAt(r.0, PosixPath.TrimSep(name))
    ensures r.1 == None && r.0 != files ==>
      PosixPath.TrimSep(name) !in files && r.0 == files[PosixPath.TrimSep(name) := Directory]
    ensures r.1.Some? && r.1.value.FileExists? ==>
      PosixPath.TrimSep(name) in files && !files[PosixPath.TrimSep(name)].Directory?
    ensures WellFormed(files) ==> WellFormed(r.0)
  {
    var failure := MkdirError(files, name);
    if failure.Some? then
      if failure.value.FileExists? then MkdirErrorExists(files, name); (files, failure)
      else (files, failure)
    else
      MkdirErrorNone(files, name);
      if PosixPath.AllSep(name) || DirectoryAt(files, PosixPath.RStripSep(name)) then (files, None)
      else
        var key := PosixPath.RStripSep(name);
        NewEntryKeepsWellFormed(files, key, Directory);
        (files[key := Directory], None)
  }

  /** A name that is not all slashes is known by a name with a last
      component. */
  lemma TrimmedKey(name: string)
    requires !PosixPath.AllSep(name)
    ensures PosixPath.TrimSep(name) == PosixPath.RStripSep(name)
    ensures PosixPath.Named(PosixPath.RStripSep(name))
  {
  }

  /** `os.makedirs(name, exist_ok=True)`: a missing parent is made first,
      by the same rule, then the directory itself. A FileExistsError from
      the parent is ignored, and a name whose last component is "." is
      not made itself. The file system afterwards, with any parents made
      before an error, and the error raised, if any. */
  function MakeDirs(files: map<string, Entry>, name: string): (r: (map<string, Entry>, Option<SplitError>))
    ensures Extends(files, r.0, |name|)
    ensures r.1 == None ==> DirectoryAt(r.0, PosixPath.TrimSep(name))
    ensures r.1.Some? && r.1.value.FileExists? ==>
      PosixPath.TrimSep(name) in files && !files[PosixPath.TrimSep(name)].Directory?
    ensures WellFormed(files) ==> WellFormed(r.0)
    decreases |name|
  {
    var stem := if !PosixPath.Named(name) then PosixPath.Dirname(name) else name;
    var head := PosixPath.Dirname(stem);
    StemIsTrimmed(name);
    PosixPath.DirnameTrimmed(stem);
    if head != "" && PosixPath.Named(stem) && !Exists(files, head) then
      var made := MakeDirs(files, head);
      assert |head| <= |name|;
      if made.1.Some? && !made.1.value.FileExists? then ExtendsFurther(files, made.0, made.0, |head|, |name|); made
      else if PosixPath.DotNamed(stem) then
        DotDirectory(made.0, stem);
        ExtendsFurther(files, made.0, made.0, |head|, |name|);
        (made.0, None)
      else
        var last := Mkdir(made.0, name);
        MkdirExtends(made.0, name);
        ExtendsFurther(files, made.0, last.0, |head|, |name|);
        last
    else MkdirExtends(files, name); Mkdir(files, name)
  }

  /** `more` keeps every entry of `files` and adds only directories whose
      names are at most `n` long. */
  predicate Extends(files: map<string, Entry>, more: map<string, Entry>, n: nat) {
    (forall p :: p in files ==> p in more && more[p] == files[p])
    && forall p :: p in more && p !in files ==> more[p] == Directory && |p| <= n
  }

  /** Two extensions in a row are one. */
  lemma ExtendsFurther(files: map<string, Entry>, mid: map<string, Entry>, more: map<string, Entry>,
                       m: nat, n: nat)
    requires Extends(files, mid, m) && m <= n
    requires mid == more || Extends(mid, more, n)
    ensures Extends(files, more, n)
  {
  }

  /** An entry of a well-formed file system is placed. */
  lemma PlacedOf(files: map<string, Entry>, p: string)
    requires WellFormed(files)
    ensures p in files ==> Placed(files, p)
  {
  }

  /** `os.mkdir` adds at most the directory it names. */
  lemma MkdirExtends(files: map<string, Entry>, name: string)
    ensures Extends(files, Mkdir(files, name).0, |name|)
  {
  }

  /** A name ending in the component "." is a directory when its
      directory part is. */
  lemma DotDirectory(files: map<string, Entry>, d: string)
    requires PosixPath.DotNamed(d) && PosixPath.Dirname(d) != ""
    requires DirectoryAt(files, PosixPath.Dirname(d))
    ensures DirectoryAt(files, d)
  {
    PosixPath.DotDirname(d);
  }

  /** The name `os.makedirs` splits is the directory name without its
      trailing slashes. */
  lemma StemIsTrimmed(name: string)
    ensures PosixPath.TrimSep(name)
      == if !PosixPath.Named(name) then PosixPath.Dirname(name) else name
  {
    if PosixPath.Named(name) {
      assert name != [] && name[|name| - 1] != PosixPath.Sep;
    } else if !PosixPath.AllSep(name) {
      assert name[|name| - 1] == PosixPath.Sep;
      assert PosixPath.RFind(name, PosixPath.Sep) == |name| - 1;
      assert name[..|name|] == name;
    }
  }

  /** Directories stay directories when entries are added. */
  lemma {:induction false} DirectoryAtGrows(files: map<string, Entry>, more: map<string, Entry>)
    requires forall p :: IsDirectoryIn(files, p) ==> IsDirectoryIn(more, p)
    ensures forall d :: DirectoryAt(files, d) ==> DirectoryAt(more, d)
  {
    forall d | DirectoryAt(files, d) ensures DirectoryAt(more, d) {
      DirectoryAtGrowsAt(files, more, d);
    }
  }

  lemma {:induction false} DirectoryAtGrowsAt(files: map<string, Entry>, more: map<string, Entry>, d: string)
    requires forall p :: IsDirectoryIn(files, p) ==> IsDirectoryIn(more, p)
    requires DirectoryAt(files, d)
    ensures DirectoryAt(more, d)
    decreases |d|
  {
    if !PosixPath.AllSep(d) && !IsDirectoryIn(files, d) {
      if |d| >= 2 && d[|d| - 1] == '.' && d[|d| - 2] == PosixPath.Sep {
        DirectoryAtGrowsAt(files, more, PosixPath.TrimSep(d[..|d| - 2]));
      }
    }
  }

  /** A new entry named without a trailing slash, inside a directory,
      keeps a file system well formed, and so does replacing a file. */
  lemma NewEntryKeepsWellFormed(files: map<string, Entry>, key: string, e: Entry)
    requires PosixPath.Named(key) && DirectoryAt(files, PosixPath.Dirname(key))
    requires IsDirectoryIn(files, key) ==> e.Directory?
    ensures forall d :: DirectoryAt(files, d) ==> DirectoryAt(files[key := e], d)
    ensures WellFormed(files) ==> WellFormed(files[key := e])
  {
    var more := files[key := e];
    DirectoryAtGrows(files, more);
    if WellFormed(files) {
      forall p | p in more ensures Placed(more, p) {
        if p != key {
          assert Placed(files, p);
        }
      }
    }
  }

  /** The corrected step: an empty output directory means the current
      directory, which exists, so there is nothing to create. */
  function EnsureOutputDirectory(files: map<string, Entry>, dir: string): (map<string, Entry>, Option<SplitError>)
  {
    if dir == "" then (files, None) else MakeDirs(files, dir)
  }

  /** Whether `open(path, "wb")` can create or replace a file there: it
      has a last component, its directory is there, and it is not a
      directory itself. */
  predicate Writable(files: map<string, Entry>, path: string) {
    PosixPath.Named(path) && DirectoryAt(files, PosixPath.Dirname(path))
    && !DirectoryAt(files, path)
  }

  /** An output path with the two facts `open` looks at worked out once:
      the directory it goes in and whether it has a last component. */
  datatype Target = Target(path: string, parent: string, named: bool)

  /** The target `os.path.join(dir, name)`. */
  function TargetOf(dir: string, name: string): Target {
    var path := PosixPath.Join(dir, name);
    Target(path, PosixPath.Dirname(PosixPath.RStripSep(path)), PosixPath.Named(path))
  }

  /** A target whose facts are those of its path. */
  predicate ValidTarget(t: Target) {
    t.parent == PosixPath.Dirname(PosixPath.RStripSep(t.path))
    && t.named == PosixPath.Named(t.path)
  }

  /** The error `open(path, "wb")` raises, if any: ENOENT for the empty
      path or a missing directory, ENOTDIR when the directory is a file,
      EISDIR for a path naming a directory or ending in '/'. */
  function OpenError(files: map<string, Entry>, t: Target): Option<SplitError>
  {
    if t.path == "" then Some(DirNotFound(t.path))
    else if !DirectoryAt(files, t.parent) then
      Some(if t.parent in files then NotADirectory(t.path) else DirNotFound(t.path))
    else if !t.named || DirectoryAt(files, t.path) then Some(IsADirectory(t.path))
    else None
  }

  /** `open(path, "wb")` succeeds exactly on the paths it can write. */
  lemma OpenErrorIff(files: map<string, Entry>, t: Target)
    requires ValidTarget(t)
    ensures OpenError(files, t) == None <==> Writable(files, t.path)
  {
    var path := t.path;
    if PosixPath.Named(path) {
      assert path != [] && path[|path| - 1] != PosixPath.Sep;
      assert PosixPath.RStripSep(path) == path;
    }
  }

  /** The target of each output, or the error `pattern.format` raises. */
  type Names = seq<Result<Target, NameFormat.FormatError>>

  /** Every target in `names` has the facts of its path. */
  predicate ValidNames(names: Names) {
    forall k :: 0 <= k < |names| ==> names[k].Ok? ==> ValidTarget(names[k].value)
  }

  /** The keyword arguments of `pattern.format` for output `i` (1-based). */
  function OutputArgs(job: Job, i: nat): NameFormat.Args
    requires ValidJob(job) && 1 <= i <= |job.indexes|
  {
    NameFormat.Args(job.base, i, (job.indexes[i - 1] + 1) as nat)
  }

  /** `pattern.format(...)` for each output in turn. Formatting is pure, so
      computing the names up front changes nothing: name `i` is still only
      looked at in iteration `i`. */
  function OutputNames(job: Job, pattern: string): (r: Names)
    requires ValidJob(job)
    ensures |r| == |job.indexes|
  {
    seq(|job.indexes|, k requires 0 <= k < |job.indexes| => OutputName(job, pattern, k + 1))
  }

  /** Every target the loop writes to has the facts of its path. */
  lemma OutputNamesValid(job: Job, pattern: string)
    requires ValidJob(job)
    ensures ValidNames(OutputNames(job, pattern))
  {
    var names := OutputNames(job, pattern);
    forall k | 0 <= k < |names| ensures names[k].Ok? ==> ValidTarget(names[k].value) {
      OutputNameValid(job, pattern, k + 1);
    }
  }

  /** Output `i`'s entry of the names, and the facts of its target. */
  lemma OutputNameValid(job: Job, pattern: string, i: nat)
    requires ValidJob(job) && 1 <= i <= |job.indexes|
    ensures OutputNames(job, pattern)[i - 1] == OutputName(job, pattern, i)
    ensures OutputName(job, pattern, i).Ok? ==> ValidTarget(OutputName(job, pattern, i).value)
  {
  }

  /** The target of output `i`, or the error `pattern.format` raises. */
  function OutputName(job: Job, pattern: string, i: nat): Result<Target, NameFormat.FormatError>
    requires ValidJob(job) && 1 <= i <= |job.indexes|
  {
    var name := NameFormat.Format(pattern, OutputArgs(job, i));
    if name.Err? then Err(name.error) else Ok(TargetOf(job.outDir, name.value))
  }

  /** The path output `i` is written to, or None when the pattern raises. */
  function OutputPath(job: Job, names: Names, i: nat): Option<string>
    requires ValidJob(job) && |names| == |job.indexes| && 1 <= i <= |job.indexes|
  {
    var name := names[i - 1];
    if name.Err? then None else Some(name.value.path)
  }

  /** The single-page document written for output `i`. */
  function OutputDocument(job: Job, i: nat): Entry
    requires ValidJob(job) && 1 <= i <= |job.indexes|
  {
    PdfFile(Document([job.doc.pages[job.indexes[i - 1]]], false))
  }

  /** Iteration `i` of the loop: name the file, write it, report. */
  function Write(run: Run, job: Job, names: Names, report: bool, i: nat): Run
    requires ValidJob(job) && |names| == |job.indexes| && 1 <= i <= |job.indexes|
  {
    var name := names[i - 1];
    if name.Err? then run.(error := Some(BadPattern(name.error)))
    else
      var failure := OpenError(run.files, name.value);
      if failure.Some? then run.(error := failure)
      else Run(run.files[name.value.path := OutputDocument(job, i)],
               run.events + (if report then [(i, |job.indexes|)] else []),
               run.written + [name.value.path], None)
  }

  /** The first `n` iterations of the loop; an error ends it. */
  function Iterate(files: map<string, Entry>, events: seq<(nat, nat)>, job: Job,
                   names: Names, report: bool, n: nat): Run
    requires ValidJob(job) && |names| == |job.indexes| && n <= |job.indexes|
  {
    if n == 0 then Run(files, events, [], None)
    else
      var prev := Iterate(files, events, job, names, report, n - 1);
      if prev.error.Some? then prev else Write(prev, job, names, report, n)
  }

  /** A whole call of `split_pdf` as the source has it. */
  function SplitOutcomeAsWritten(files: map<string, Entry>, events: seq<(nat, nat)>, req: Request): Run
  {
    var job := Prepare(files, req);
    if job.Err? then Run(files, events, [], Some(job.error))
    else
      var made := MakeDirs(files, job.value.outDir);
      if made.1.Some? then Run(made.0, events, [], made.1)
      else Iterate(made.0, events, job.value, OutputNames(job.value, req.pattern), req.report, |job.value.indexes|)
  }

  /** A whole call of `split_pdf`, with the output directory corrected. */
  function SplitOutcome(files: map<string, Entry>, events: seq<(nat, nat)>, req: Request): Run
  {
    var job := Prepare(files, req);
    if job.Err? then Run(files, events, [], Some(job.error))
    else
      var made := EnsureOutputDirectory(files, job.value.outDir);
      if made.1.Some? then Run(made.0, events, [], made.1)
      else Iterate(made.0, events, job.value, OutputNames(job.value, req.pattern), req.report, |job.value.indexes|)
  }

  /** The paths a run wrote to. */
  function WrittenPaths(r: Run): set<string> {
    set p | p in r.written
  }

  /** `progress_cb(1, n)`, ..., `progress_cb(k, n)`. */
  function ProgressEvents(k: nat, n: nat): (r: seq<(nat, nat)>)
    ensures |r| == k
    ensures forall i :: 0 <= i < k ==> r[i] == (i + 1, n)
  {
    if k == 0 then [] else ProgressEvents(k - 1, n) + [(k, n)]
  }

  // ---------------------------------------------------------------------
  // The implementation
  // ---------------------------------------------------------------------

  /** The file system the tool works in, and the progress it has reported. */
  class Workspace {
    var files: map<string, Entry>
    var progress: seq<(nat, nat)>

    constructor(files: map<string, Entry>)
      ensures this.files == files && progress == []
    {
      this.files := files;
      progress := [];
    }

    /** `split_pdf(req.pdfPath, req.outDir, req.pattern, req.pages, cb)`:
        the error it raises, if any. Files written before an error stay. */
    method SplitPdf(req: Request) returns (error: Option<SplitError>)
      modifies this
      ensures var r := SplitOutcome(old(files), old(progress), req);
        files == r.files && progress == r.events && error == r.error
    {
      var path := req.pdfPath;
      if path !in files || files[path].Directory? {
        assert Prepare(files, req) == Err(SourceNotFound(path));
        SplitOutcomeRejects(files, progress, req);
        return Some(SourceNotFound(path));
      }
      if files[path].OtherFile? {
        assert Prepare(files, req) == Err(Unreadable(path));
        SplitOutcomeRejects(files, progress, req);
        return Some(Unreadable(path));
      }
      var doc := files[path].doc;
      if doc.encrypted {
        assert Prepare(files, req) == Err(Encrypted);
        SplitOutcomeRejects(files, progress, req);
        return Some(Encrypted);
      }
      var selection := PageSelection.ParsePages(req.pages, |doc.pages|);
      if selection.Err? {
        assert Prepare(files, req) == Err(BadSelection(selection.error));
        SplitOutcomeRejects(files, progress, req);
        return Some(BadSelection(selection.error));
      }
      var job := Job(doc, selection.value, BaseName(path), OutputDirectory(req));
      assert Prepare(files, req) == Ok(job);
      var made := MakeOutputDirectory(job.outDir);
      if made.Some? {
        SplitOutcomeNoDirectory(old(files), progress, req, job);
        return made;
      }
      SplitOutcomeRuns(old(files), progress, req, job, files);
      error := WriteOutputs(job, req.pattern, req.report);
    }

    /** `os.makedirs(out_dir, exist_ok=True)`, skipped for the current
        directory "". */
    method MakeOutputDirectory(dir: string) returns (error: Option<SplitError>)
      modifies this
      ensures (files, error) == EnsureOutputDirectory(old(files), dir)
      ensures progress == old(progress)
    {
      if dir == "" {
        return None;
      }
      var made := MakeDirs(files, dir);
      files := made.0;
      error := made.1;
    }

    /** The loop `for idx, page_no in enumerate(page_indexes, start=1)`. */
    method WriteOutputs(job: Job, pattern: string, report: bool) returns (error: Option<SplitError>)
      requires ValidJob(job)
      modifies this
      ensures var r := Iterate(old(files), old(progress), job, OutputNames(job, pattern), report, |job.indexes|);
        files == r.files && progress == r.events && error == r.error
    {
      ghost var names := OutputNames(job, pattern);
      var n := |job.indexes|;
      ghost var written: seq<string> := [];
      var idx: nat := 1;
      while idx <= n
        invariant 1 <= idx <= n + 1
        invariant Iterate(old(files), old(progress), job, names, report, idx - 1)
          == Run(files, progress, written, None)
      {
        ghost var before := Run(files, progress, written, None);
        var failure;
        failure, written := WriteOutput(job, pattern, report, idx, written);
        assert Iterate(old(files), old(progress), job, names, report, idx) == Write(before, job, names, report, idx);
        if failure.Some? {
          IterateErrorStays(old(files), old(progress), job, names, report, idx, n);
          return failure;
        }
        idx := idx + 1;
      }
      return None;
    }

    /** One pass of the loop: format the name, open the file, write the
        page, report progress. */
    method WriteOutput(job: Job, pattern: string, report: bool, idx: nat, ghost written: seq<string>)
      returns (error: Option<SplitError>, ghost written': seq<string>)
      requires ValidJob(job) && 1 <= idx <= |job.indexes|
      modifies this
      ensures var r := Write(Run(old(files), old(progress), written, None), job, OutputNames(job, pattern), report, idx);
        files == r.files && progress == r.events && written' == r.written && error == r.error
    {
      ghost var names := OutputNames(job, pattern);
      var formatted := NameFormat.Format(pattern, OutputArgs(job, idx));
      var name := if formatted.Err? then Err(formatted.error) else Ok(TargetOf(job.outDir, formatted.value));
      OutputNameValid(job, pattern, idx);
      assert name == names[idx - 1];
      written' := written;
      if name.Err? {
        return Some(BadPattern(name.error)), written';
      }
      var path := name.value.path;
      error := OpenError(files, name.value);
      if error.Some? {
        return;
      }
      files := files[path := OutputDocument(job, idx)];
      if report {
        progress := progress + [(idx, |job.indexes|)];
      }
      written' := written + [path];
    }
  }

  // ---------------------------------------------------------------------
  // Properties
  // ---------------------------------------------------------------------

  /** A call whose checks fail raises that error and changes nothing. */
  lemma SplitOutcomeRejects(files: map<string, Entry>, events: seq<(nat, nat)>, req: Request)
    requires Prepare(files, req).Err?
    ensures SplitOutcome(files, events, req) == Run(files, events, [], Some(Prepare(files, req).error))
  {
  }

  /** A call whose output directory cannot be made raises that error and
      changes nothing. */
  lemma SplitOutcomeNoDirectory(files: map<string, Entry>, events: seq<(nat, nat)>, req: Request, job: Job)
    requires Prepare(files, req) == Ok(job) && EnsureOutputDirectory(files, job.outDir).1.Some?
    ensures var made := EnsureOutputDirectory(files, job.outDir);
      SplitOutcome(files, events, req) == Run(made.0, events, [], made.1)
  {
  }

  /** Once the checks pass and the output directory is ready, a call is
      its loop. */
  lemma SplitOutcomeRuns(files: map<string, Entry>, events: seq<(nat, nat)>, req: Request, job: Job,
                         made: map<string, Entry>)
    requires Prepare(files, req) == Ok(job) && EnsureOutputDirectory(files, job.outDir) == (made, None)
    ensures ValidJob(job)
    ensures SplitOutcome(files, events, req)
      == Iterate(made, events, job, OutputNames(job, req.pattern), req.report, |job.indexes|)
  {
  }

  /** One iteration either stops with an error and changes nothing else, or
      writes output `i` to its path and records it. */
  lemma WriteStep(run: Run, job: Job, names: Names, report: bool, i: nat)
    requires ValidJob(job) && |names| == |job.indexes| && 1 <= i <= |job.indexes|
    ensures var w := Write(run, job, names, report, i);
      if w.error.Some? then w == run.(error := w.error)
      else
        OutputPath(job, names, i).Some?
        && var path := OutputPath(job, names, i).value;
        w == Run(run.files[path := OutputDocument(job, i)],
                 run.events + (if report then [(i, |job.indexes|)] else []),
                 run.written + [path], None)
  {
  }

  /** After an error, later iterations change nothing. */
  lemma {:induction false} IterateErrorStays(files: map<string, Entry>, events: seq<(nat, nat)>, job: Job,
                                             names: Names, report: bool, i: nat, n: nat)
    requires ValidJob(job) && |names| == |job.indexes| && i <= n <= |job.indexes|
    requires Iterate(files, events, job, names, report, i).error.Some?
    ensures Iterate(files, events, job, names, report, n) == Iterate(files, events, job, names, report, i)
    decreases n - i
  {
    if i < n {
      IterateErrorStays(files, events, job, names, report, i, n - 1);
    }
  }

  /** The loop writes at most `n` files, and all `n` unless it stopped on
      an error. */
  lemma {:induction false} IterateLength(files: map<string, Entry>, events: seq<(nat, nat)>, job: Job,
                                         names: Names, report: bool, n: nat)
    requires ValidJob(job) && |names| == |job.indexes| && n <= |job.indexes|
    ensures var r := Iterate(files, events, job, names, report, n);
      |r.written| <= n && (r.error == None ==> |r.written| == n)
  {
    if n > 0 {
      IterateLength(files, events, job, names, report, n - 1);
      WriteStep(Iterate(files, events, job, names, report, n - 1), job, names, report, n);
    }
  }

  /** The loop reports `(1, N)`, ..., `(k, N)` for the `k` files it wrote,
      in that order and with the same `N`. */
  lemma {:induction false} IterateProgress(files: map<string, Entry>, events: seq<(nat, nat)>, job: Job,
                                           names: Names, report: bool, n: nat)
    requires ValidJob(job) && |names| == |job.indexes| && n <= |job.indexes|
    ensures var r := Iterate(files, events, job, names, report, n);
      r.events == events + (if report then ProgressEvents(|r.written|, |job.indexes|) else [])
  {
    if n > 0 {
      var prev := Iterate(files, events, job, names, report, n - 1);
      IterateProgress(files, events, job, names, report, n - 1);
      if prev.error == None {
        IterateLength(files, events, job, names, report, n - 1);
        WriteProgress(events, prev, job, names, report, n);
      }
    } else {
      assert events + [] == events;
    }
  }

  /** Writing output `n` after `n - 1` outputs reports `(n, N)`. */
  lemma WriteProgress(events: seq<(nat, nat)>, prev: Run, job: Job, names: Names, report: bool, n: nat)
    requires ValidJob(job) && |names| == |job.indexes| && 1 <= n <= |job.indexes|
    requires prev.error == None && |prev.written| == n - 1
    requires prev.events == events + (if report then ProgressEvents(|prev.written|, |job.indexes|) else [])
    ensures var w := Write(prev, job, names, report, n);
      w.events == events + (if report then ProgressEvents(|w.written|, |job.indexes|) else [])
  {
    WriteStep(prev, job, names, report, n);
    var w := Write(prev, job, names, report, n);
    if w.error == None {
      ProgressSnoc(events, prev, w, report, |job.indexes|);
    }
  }

  /** One more file written, one more progress event. */
  lemma ProgressSnoc(events: seq<(nat, nat)>, prev: Run, r: Run, report: bool, total: nat)
    requires prev.events == events + (if report then ProgressEvents(|prev.written|, total) else [])
    requires r.events == prev.events + (if report then [(|prev.written| + 1, total)] else [])
    requires |r.written| == |prev.written| + 1
    ensures r.events == events + (if report then ProgressEvents(|r.written|, total) else [])
  {
    if report {
      var k := |prev.written|;
      assert ProgressEvents(k + 1, total) == ProgressEvents(k, total) + [(k + 1, total)];
      assert r.events == events + (ProgressEvents(k, total) + [(k + 1, total)]);
    } else {
      assert r.events == prev.events + [];
    }
  }

  /** Output `i` went to `OutputPath(i)`: the paths written are exactly the
      outputs' paths, in order. */
  lemma {:induction false} IterateWrittenPaths(files: map<string, Entry>, events: seq<(nat, nat)>, job: Job,
                                               names: Names, report: bool, n: nat)
    requires ValidJob(job) && |names| == |job.indexes| && n <= |job.indexes|
    ensures var r := Iterate(files, events, job, names, report, n);
      |r.written| <= n
      && forall k :: 0 <= k < |r.written| ==> OutputPath(job, names, k + 1) == Some(r.written[k])
  {
    if n > 0 {
      var prev := Iterate(files, events, job, names, report, n - 1);
      var r := Iterate(files, events, job, names, report, n);
      IterateWrittenPaths(files, events, job, names, report, n - 1);
      if prev.error == None {
        IterateLength(files, events, job, names, report, n - 1);
        WriteStep(prev, job, names, report, n);
        if r.error == None {
          WrittenSnoc(prev.written, r.written, job, names, n);
        }
      }
    }
  }

  /** One more output, written to its own path. */
  lemma WrittenSnoc(before: seq<string>, after: seq<string>, job: Job, names: Names, n: nat)
    requires ValidJob(job) && |names| == |job.indexes| && 1 <= n <= |job.indexes|
    requires |before| == n - 1 && OutputPath(job, names, n).Some?
    requires after == before + [OutputPath(job, names, n).value]
    requires forall k :: 0 <= k < |before| ==> OutputPath(job, names, k + 1) == Some(before[k])
    ensures forall k :: 0 <= k < |after| ==> OutputPath(job, names, k + 1) == Some(after[k])
  {
    forall k | 0 <= k < |after| ensures OutputPath(job, names, k + 1) == Some(after[k]) {
      if k < |before| {
        assert after[k] == before[k];
      }
    }
  }

  /** Only the output paths change: any other path keeps its entry, or its
      absence. */
  lemma {:induction false} IterateFrame(files: map<string, Entry>, events: seq<(nat, nat)>, job: Job,
                                        names: Names, report: bool, n: nat, path: string)
    requires ValidJob(job) && |names| == |job.indexes| && n <= |job.indexes|
    requires forall i :: 1 <= i <= n ==> OutputPath(job, names, i) != Some(path)
    ensures var r := Iterate(files, events, job, names, report, n);
      (path in r.files <==> path in files) && (path in files ==> r.files[path] == files[path])
  {
    if n > 0 {
      IterateFrame(files, events, job, names, report, n - 1, path);
      WriteStep(Iterate(files, events, job, names, report, n - 1), job, names, report, n);
    }
  }

  /** When the outputs' paths are pairwise distinct and the loop ran to
      the end, output `i` holds exactly source page `indexes[i-1]`. */
  lemma {:induction false} IterateContents(files: map<string, Entry>, events: seq<(nat, nat)>, job: Job,
                                           names: Names, report: bool, n: nat, i: nat)
    requires ValidJob(job) && |names| == |job.indexes| && 1 <= i <= n <= |job.indexes|
    requires forall a, b :: 1 <= a < b <= n ==> OutputPath(job, names, a) != OutputPath(job, names, b)
    requires Iterate(files, events, job, names, report, n).error == None
    ensures OutputPath(job, names, i).Some?
    ensures var r := Iterate(files, events, job, names, report, n);
      OutputPath(job, names, i).value in r.files
      && r.files[OutputPath(job, names, i).value] == OutputDocument(job, i)
  {
    var prev := Iterate(files, events, job, names, report, n - 1);
    assert prev.error == None;
    WriteStep(prev, job, names, report, n);
    if i < n {
      IterateContents(files, events, job, names, report, n - 1, i);
      assert OutputPath(job, names, i) != OutputPath(job, names, n);
    }
  }

  /** The loop runs to the end when every name formats to a path that
      `open` accepts; it creates and removes no directory. */
  lemma {:induction false} IterateSucceeds(files: map<string, Entry>, events: seq<(nat, nat)>, job: Job,
                                           names: Names, report: bool, n: nat)
    requires ValidJob(job) && |names| == |job.indexes| && n <= |job.indexes|
    requires forall k :: 0 <= k < n ==> names[k].Ok? && OpenError(files, names[k].value) == None
    ensures var r := Iterate(files, events, job, names, report, n);
      r.error == None && forall p :: IsDirectoryIn(r.files, p) <==> IsDirectoryIn(files, p)
  {
    if n > 0 {
      IterateSucceeds(files, events, job, names, report, n - 1);
      var prev := Iterate(files, events, job, names, report, n - 1);
      var t := names[n - 1].value;
      OpenErrorKept(files, prev.files, t);
      var r := Iterate(files, events, job, names, report, n);
      assert r == Write(prev, job, names, report, n);
      assert r.files == prev.files[t.path := OutputDocument(job, n)];
      assert !IsDirectoryIn(prev.files, t.path);
    }
  }

  /** Whether `open` accepts a target depends only on the directories. */
  lemma OpenErrorKept(files: map<string, Entry>, other: map<string, Entry>, t: Target)
    requires forall p :: IsDirectoryIn(files, p) <==> IsDirectoryIn(other, p)
    ensures OpenError(files, t) == None <==> OpenError(other, t) == None
  {
    SameDirectories(files, other);
  }

  /** Two file systems with the same directory entries agree on every
      directory. */
  lemma SameDirectories(files: map<string, Entry>, other: map<string, Entry>)
    requires forall p :: IsDirectoryIn(files, p) <==> IsDirectoryIn(other, p)
    ensures forall d :: DirectoryAt(files, d) <==> DirectoryAt(other, d)
  {
    DirectoryAtGrows(files, other);
    DirectoryAtGrows(other, files);
  }

  /** Every write goes to a path `open` accepts, so the loop keeps a file
      system well formed. */
  lemma {:induction false} IterateWellFormed(files: map<string, Entry>, events: seq<(nat, nat)>, job: Job,
                                             names: Names, report: bool, n: nat)
    requires ValidJob(job) && |names| == |job.indexes| && n <= |job.indexes|
    requires ValidNames(names) && WellFormed(files)
    ensures WellFormed(Iterate(files, events, job, names, report, n).files)
  {
    if n > 0 {
      var m := n - 1;
      IterateWellFormed(files, events, job, names, report, m);
      var prev := Iterate(files, events, job, names, report, m);
      if prev.error.Some? {
        assert Iterate(files, events, job, names, report, n) == prev;
      } else {
        WriteWellFormed(prev, job, names, report, n);
        assert Iterate(files, events, job, names, report, n) == Write(prev, job, names, report, n);
      }
    }
  }

  /** One iteration keeps a file system well formed. */
  lemma WriteWellFormed(run: Run, job: Job, names: Names, report: bool, i: nat)
    requires ValidJob(job) && |names| == |job.indexes| && 1 <= i <= |job.indexes|
    requires ValidNames(names) && WellFormed(run.files)
    ensures WellFormed(Write(run, job, names, report, i).files)
  {
    var name := names[i - 1];
    if name.Ok? && OpenError(run.files, name.value) == None {
      OpenErrorIff(run.files, name.value);
      NewEntryKeepsWellFormed(run.files, name.value.path, OutputDocument(job, i));
    }
  }

  /** A whole call keeps a file system well formed. */
  lemma SplitOutcomeWellFormed(files: map<string, Entry>, events: seq<(nat, nat)>, req: Request)
    requires WellFormed(files)
    ensures WellFormed(SplitOutcome(files, events, req).files)
  {
    var job := Prepare(files, req);
    if job.Ok? {
      var made := EnsureOutputDirectory(files, job.value.outDir);
      if made.1 == None {
        OutputNamesValid(job.value, req.pattern);
        IterateWellFormed(made.0, events, job.value, OutputNames(job.value, req.pattern), req.report, |job.value.indexes|);
      }
    }
  }

  /** The paths present afterwards are those present before and those
      written. */
  lemma {:induction false} IterateKeys(files: map<string, Entry>, events: seq<(nat, nat)>, job: Job,
                                       names: Names, report: bool, n: nat)
    requires ValidJob(job) && |names| == |job.indexes| && n <= |job.indexes|
    ensures var r := Iterate(files, events, job, names, report, n);
      r.files.Keys == files.Keys + WrittenPaths(r)
  {
    if n > 0 {
      IterateKeys(files, events, job, names, report, n - 1);
      WriteStep(Iterate(files, events, job, names, report, n - 1), job, names, report, n);
    }
  }

  /** A missing source raises FileNotFoundError before anything changes. */
  lemma MissingSourceFails(files: map<string, Entry>, events: seq<(nat, nat)>, req: Request)
    requires req.pdfPath !in files || files[req.pdfPath].Directory?
    ensures SplitOutcome(files, events, req) == Run(files, events, [], Some(SourceNotFound(req.pdfPath)))
  {
  }

  /** An encrypted PDF raises RuntimeError before anything changes. */
  lemma EncryptedSourceFails(files: map<string, Entry>, events: seq<(nat, nat)>, req: Request)
    requires req.pdfPath in files && files[req.pdfPath].PdfFile? && files[req.pdfPath].doc.encrypted
    ensures SplitOutcome(files, events, req) == Run(files, events, [], Some(Encrypted))
  {
  }

  /** A malformed selection raises before anything changes. */
  lemma BadSelectionFails(files: map<string, Entry>, events: seq<(nat, nat)>, req: Request)
    requires req.pdfPath in files && files[req.pdfPath].PdfFile? && !files[req.pdfPath].doc.encrypted
    requires PageSelection.Selection(req.pages, |files[req.pdfPath].doc.pages|).Err?
    ensures SplitOutcome(files, events, req) == Run(files, events, [],
      Some(BadSelection(PageSelection.Selection(req.pages, |files[req.pdfPath].doc.pages|).error)))
  {
  }

  // ---------------------------------------------------------------------
  // The default pattern
  // ---------------------------------------------------------------------

  /** A base name without '/', as `basename` gives. */
  predicate PlainBase(job: Job) {
    forall k :: 0 <= k < |job.base| ==> job.base[k] != PosixPath.Sep
  }

  /** The name of output `i` under the default pattern. */
  function DefaultName(base: string, i: nat): string {
    base + "_" + PyStr.ZeroPad(PyStr.NatToString(i), 3) + ".pdf"
  }

  /** Under the default pattern output `i` is `<out_dir>/<base>_<iii>.pdf`. */
  lemma DefaultOutputPath(job: Job, i: nat)
    requires ValidJob(job) && 1 <= i <= |job.indexes|
    ensures OutputPath(job, OutputNames(job, NameFormat.DefaultPattern), i) == Some(PosixPath.Join(job.outDir, DefaultName(job.base, i)))
  {
    OutputNameValid(job, NameFormat.DefaultPattern, i);
    NameFormat.DefaultPatternName(OutputArgs(job, i));
  }

  /** Joining a directory with names that do not start with '/' is
      injective in the name. */
  lemma JoinInjective(dir: string, a: string, b: string)
    requires a != [] && a[0] != PosixPath.Sep && b != [] && b[0] != PosixPath.Sep
    ensures PosixPath.Join(dir, a) == PosixPath.Join(dir, b) ==> a == b
  {
    var ja, jb := PosixPath.Join(dir, a), PosixPath.Join(dir, b);
    if ja == jb {
      var off := |ja| - |a|;
      assert ja[off..] == a;
      assert jb[off..] == b;
    }
  }

  /** Under the default pattern the outputs' paths are pairwise distinct. */
  lemma DefaultPathsDistinct(job: Job, a: nat, b: nat)
    requires ValidJob(job) && PlainBase(job) && 1 <= a < b <= |job.indexes|
    ensures OutputPath(job, OutputNames(job, NameFormat.DefaultPattern), a) != OutputPath(job, OutputNames(job, NameFormat.DefaultPattern), b)
  {
    DefaultOutputPath(job, a);
    DefaultOutputPath(job, b);
    var na, nb := DefaultName(job.base, a), DefaultName(job.base, b);
    NameFormat.DefaultNamesDistinct(OutputArgs(job, a), OutputArgs(job, b));
    NameFormat.DefaultPatternName(OutputArgs(job, a));
    NameFormat.DefaultPatternName(OutputArgs(job, b));
    assert na != nb;
    DefaultNameStart(job.base, a);
    DefaultNameStart(job.base, b);
    JoinInjective(job.outDir, na, nb);
  }

  /** A default name never starts with '/'. */
  lemma DefaultNameStart(base: string, i: nat)
    requires forall k :: 0 <= k < |base| ==> base[k] != PosixPath.Sep
    ensures DefaultName(base, i) != [] && DefaultName(base, i)[0] != PosixPath.Sep
  {
    var n := DefaultName(base, i);
    if base == [] {
      assert n[0] == '_';
    } else {
      assert n[0] == base[0];
    }
  }

  /** Joining a relative name makes a longer path, never the directory. */
  lemma JoinLonger(dir: string, name: string)
    requires name != [] && name[0] != PosixPath.Sep
    ensures |PosixPath.Join(dir, name)| > |dir|
  {
  }

  /** A run that ended without error, having written output `i` to
      `<out_dir>/<base>_<iii>.pdf` with page `indexes[i-1]` for every `i`,
      in order, and reported each when asked to. */
  predicate WroteDefaultOutputs(r: Run, job: Job, events: seq<(nat, nat)>, report: bool)
  {
    var n := |job.indexes|;
    ValidJob(job) && r.error == None && |r.written| == n
    && (forall i :: 1 <= i <= n ==>
          r.written[i - 1] == PosixPath.Join(job.outDir, DefaultName(job.base, i))
          && r.written[i - 1] in r.files && r.files[r.written[i - 1]] == OutputDocument(job, i))
    && r.events == events + (if report then ProgressEvents(n, n) else [])
  }

  /** A default name is non-empty, holds no '/' and ends in 'f'. */
  lemma DefaultNamePlain(base: string, i: nat)
    requires forall k :: 0 <= k < |base| ==> base[k] != PosixPath.Sep
    ensures var n := DefaultName(base, i);
      n != [] && n[|n| - 1] == 'f' && forall k :: 0 <= k < |n| ==> n[k] != PosixPath.Sep
  {
    var digits := PyStr.NatToString(i);
    var z := PyStr.ZeroPad(digits, 3);
    var zeros := PyStr.Zeros(|z| - |digits|);
    forall k | 0 <= k < |z| ensures PyStr.IsDigit(z[k]) {
      if k < |zeros| {
        assert z[k] == zeros[k];
      } else {
        assert z[k] == digits[k - |zeros|];
      }
    }
    var n := DefaultName(base, i);
    assert n == base + "_" + z + ".pdf";
    forall k | 0 <= k < |n| ensures n[k] != PosixPath.Sep {
      if k < |base| {
        assert n[k] == base[k];
      } else if k == |base| {
        assert n[k] == '_';
      } else if k < |base| + 1 + |z| {
        assert n[k] == z[k - |base| - 1];
      } else {
        assert n[k] == ".pdf"[k - |base| - 1 - |z|];
      }
    }
  }

  /** Under the default pattern output `i` lands directly in the output
      directory, under a name `open` can create once that directory is
      there and the name is not taken by a directory. */
  lemma DefaultPathWritable(files: map<string, Entry>, job: Job, i: nat)
    requires PlainBase(job)
    requires DirectoryAt(files, PosixPath.TrimSep(job.outDir))
    requires !IsDirectoryIn(files, PosixPath.Join(job.outDir, DefaultName(job.base, i)))
    ensures Writable(files, PosixPath.Join(job.outDir, DefaultName(job.base, i)))
  {
    var name := DefaultName(job.base, i);
    var path := PosixPath.Join(job.outDir, name);
    DefaultNamePlain(job.base, i);
    PosixPath.JoinDirname(job.outDir, name);
    assert path[|path| - 1] == 'f';
  }

  /** Under the default pattern `open` accepts output `i`'s target once
      the output directory is there and the name is not taken by a
      directory. */
  lemma DefaultTargetOpens(files: map<string, Entry>, job: Job, i: nat)
    requires ValidJob(job) && PlainBase(job) && 1 <= i <= |job.indexes|
    requires DirectoryAt(files, PosixPath.TrimSep(job.outDir))
    requires !IsDirectoryIn(files, PosixPath.Join(job.outDir, DefaultName(job.base, i)))
    ensures var names := OutputNames(job, NameFormat.DefaultPattern);
      OutputPath(job, names, i) == Some(PosixPath.Join(job.outDir, DefaultName(job.base, i)))
      && names[i - 1].Ok? && OpenError(files, names[i - 1].value) == None
  {
    var names := OutputNames(job, NameFormat.DefaultPattern);
    DefaultOutputPath(job, i);
    DefaultPathWritable(files, job, i);
    OutputNameValid(job, NameFormat.DefaultPattern, i);
    OpenErrorIff(files, names[i - 1].value);
  }

  /** The loop under the default pattern, once the output directory is
      there and no output path is a directory: output `i` is
      `<out_dir>/<base>_<iii>.pdf` holding page `indexes[i-1]`, every
      output is reported, only the outputs appear, and the directories
      stay as they were. */
  lemma DefaultIterate(files: map<string, Entry>, events: seq<(nat, nat)>, job: Job, report: bool)
    requires ValidJob(job) && PlainBase(job)
    requires DirectoryAt(files, PosixPath.TrimSep(job.outDir))
    requires forall i :: 1 <= i <= |job.indexes| ==>
      !IsDirectoryIn(files, PosixPath.Join(job.outDir, DefaultName(job.base, i)))
    ensures var r := Iterate(files, events, job, OutputNames(job, NameFormat.DefaultPattern), report, |job.indexes|);
      WroteDefaultOutputs(r, job, events, report) && r.files.Keys == files.Keys + WrittenPaths(r)
      && forall p :: IsDirectoryIn(r.files, p) <==> IsDirectoryIn(files, p)
  {
    var names := OutputNames(job, NameFormat.DefaultPattern);
    var n := |job.indexes|;
    forall i | 1 <= i <= n
      ensures OutputPath(job, names, i) == Some(PosixPath.Join(job.outDir, DefaultName(job.base, i)))
    {
      DefaultTargetOpens(files, job, i);
    }
    forall k | 0 <= k < n ensures names[k].Ok? && OpenError(files, names[k].value) == None {
      DefaultTargetOpens(files, job, k + 1);
    }
    forall a, b | 1 <= a < b <= n ensures OutputPath(job, names, a) != OutputPath(job, names, b) {
      DefaultPathsDistinct(job, a, b);
    }
    IterateSucceeds(files, events, job, names, report, n);
    IterateLength(files, events, job, names, report, n);
    IterateWrittenPaths(files, events, job, names, report, n);
    IterateProgress(files, events, job, names, report, n);
    IterateKeys(files, events, job, names, report, n);
    var r := Iterate(files, events, job, names, report, n);
    forall i | 1 <= i <= n
      ensures r.written[i - 1] == PosixPath.Join(job.outDir, DefaultName(job.base, i))
      ensures r.written[i - 1] in r.files && r.files[r.written[i - 1]] == OutputDocument(job, i)
    {
      IterateContents(files, events, job, names, report, n, i);
    }
  }

  /** A whole call under the default pattern, once the checks pass, the
      output directory step succeeds and no output path is a directory:
      the outputs are written as `DefaultIterate` says, the output
      directory is there, every other entry stays, and whatever else
      appears is a directory `os.makedirs` made. */
  lemma DefaultSplit(files: map<string, Entry>, events: seq<(nat, nat)>, req: Request, job: Job)
    requires req.pattern == NameFormat.DefaultPattern && Prepare(files, req) == Ok(job)
    requires EnsureOutputDirectory(files, job.outDir).1 == None
    requires forall i :: 1 <= i <= |job.indexes| ==>
      !IsDirectoryIn(files, PosixPath.Join(job.outDir, DefaultName(job.base, i)))
    ensures var r := SplitOutcome(files, events, req);
      WroteDefaultOutputs(r, job, events, req.report)
      && DirectoryAt(r.files, PosixPath.TrimSep(job.outDir))
      && (forall p :: p in files && p !in WrittenPaths(r) ==> p in r.files && r.files[p] == files[p])
      && (forall p :: p in r.files && p !in files && p !in WrittenPaths(r) ==> r.files[p] == Directory)
  {
    var made := EnsureOutputDirectory(files, job.outDir).0;
    var names := OutputNames(job, NameFormat.DefaultPattern);
    var n := |job.indexes|;
    forall i | 1 <= i <= n
      ensures !IsDirectoryIn(made, PosixPath.Join(job.outDir, DefaultName(job.base, i)))
      ensures OutputPath(job, names, i) == Some(PosixPath.Join(job.outDir, DefaultName(job.base, i)))
    {
      DefaultNameStart(job.base, i);
      JoinLonger(job.outDir, DefaultName(job.base, i));
      DefaultOutputPath(job, i);
    }
    DefaultIterate(made, events, job, req.report);
    var r := Iterate(made, events, job, names, req.report, n);
    SameDirectories(made, r.files);
    forall p | p in made && p !in WrittenPaths(r) ensures p in r.files && r.files[p] == made[p] {
      forall i | 1 <= i <= n ensures OutputPath(job, names, i) != Some(p) {
        assert r.written[i - 1] in WrittenPaths(r);
      }
      IterateFrame(made, events, job, names, req.report, n, p);
    }
  }

  // ---------------------------------------------------------------------
  // The repository's test scenarios
  // ---------------------------------------------------------------------

  /** The base name of `<dir>/sample.pdf` is `sample`. */
  lemma SampleBaseName(dir: string)
    ensures BaseName(dir + "/sample.pdf") == "sample"
  {
    var p := dir + "/sample.pdf";
    assert p[|dir|] == PosixPath.Sep;
    forall k | |dir| < k < |p| ensures p[k] != PosixPath.Sep {
      assert p[k] == "sample.pdf"[k - |dir| - 1];
    }
    PosixPath.RFindLast(p, PosixPath.Sep, |dir|);
    assert PosixPath.Basename(p) == "sample.pdf";
    assert "sample.pdf" == [] + "sample" + [PosixPath.ExtSep] + "pdf";
    assert "sample"[0] != PosixPath.ExtSep;
    PosixPath.SplitextAt([], "sample", "pdf");
  }

  /** The first three default names of `sample`. */
  lemma SampleName001()
    ensures DefaultName("sample", 1) == "sample_001.pdf"
  {
    SingleDigitName("sample", 1);
    assert [PyStr.DigitChar(1)] == "1";
    assert "sample" + "_00" == "sample_00";
    assert "sample_00" + "1" == "sample_001";
    assert "sample_001" + ".pdf" == "sample_001.pdf";
  }

  lemma SampleName002()
    ensures DefaultName("sample", 2) == "sample_002.pdf"
  {
    SingleDigitName("sample", 2);
    assert [PyStr.DigitChar(2)] == "2";
    assert "sample" + "_00" == "sample_00";
    assert "sample_00" + "2" == "sample_002";
    assert "sample_002" + ".pdf" == "sample_002.pdf";
  }

  lemma SampleName003()
    ensures DefaultName("sample", 3) == "sample_003.pdf"
  {
    SingleDigitName("sample", 3);
    assert [PyStr.DigitChar(3)] == "3";
    assert "sample" + "_00" == "sample_00";
    assert "sample_00" + "3" == "sample_003";
    assert "sample_003" + ".pdf" == "sample_003.pdf";
  }

  /** Outputs 1 to 9 get the number `00<d>`. */
  lemma SingleDigitName(base: string, d: nat)
    requires 1 <= d <= 9
    ensures DefaultName(base, d) == base + "_00" + [PyStr.DigitChar(d)] + ".pdf"
  {
    var digits := PyStr.NatToString(d);
    assert digits == [PyStr.DigitChar(d)];
    assert PyStr.ZeroPad(digits, 3) == PyStr.Zeros(2) + digits;
    assert PyStr.Zeros(2) == "00";
  }

  /** The scenarios' file system: a well-formed one in which `dir` is a
      directory whose only entry is `sample.pdf` with the given pages. */
  predicate SampleFiles(files: map<string, Entry>, dir: string, pages: seq<Page>) {
    WellFormed(files) && IsDirectoryIn(files, dir)
    && Holds(files, dir + "/sample.pdf", PdfFile(Document(pages, false)))
    && forall p :: p in files && PosixPath.Dirname(p) == dir ==> p == dir + "/sample.pdf"
  }

  predicate Holds(files: map<string, Entry>, path: string, e: Entry) {
    path in files && files[path] == e
  }

  /** A directory name that ends in neither '/' nor a "." component. */
  predicate PlainDir(dir: string) {
    dir != [] && dir[|dir| - 1] != PosixPath.Sep && dir[|dir| - 1] != PosixPath.ExtSep
  }

  /** The checks pass on `<dir>/sample.pdf` and fix the base name `sample`. */
  lemma SampleJob(files: map<string, Entry>, dir: string, pages: seq<Page>, req: Request, indexes: seq<int>)
    requires SampleFiles(files, dir, pages) && req.pdfPath == dir + "/sample.pdf"
    requires PageSelection.Selection(req.pages, |pages|) == Ok(indexes)
    ensures Prepare(files, req) == Ok(Job(Document(pages, false), indexes, "sample", OutputDirectory(req)))
  {
    SampleBaseName(dir);
  }

  /** A plain directory is known by its own name, is no directory of
      slashes, and does not end in the component ".". */
  lemma PlainDirName(dir: string)
    requires PlainDir(dir)
    ensures PosixPath.TrimSep(dir) == dir && !PosixPath.AllSep(dir)
    ensures PosixPath.Named(dir) && !PosixPath.DotNamed(dir)
  {
    assert dir[|dir| - 1] != PosixPath.Sep;
  }

  /** In the scenarios' directory, no name other than `sample.pdf` is
      taken. */
  lemma SampleAbsent(files: map<string, Entry>, dir: string, pages: seq<Page>, name: string)
    requires SampleFiles(files, dir, pages) && PlainDir(dir)
    requires name != [] && forall k :: 0 <= k < |name| ==> name[k] != PosixPath.Sep
    requires name != "sample.pdf"
    ensures PosixPath.Join(dir, name) !in files
  {
    PlainDirName(dir);
    PosixPath.JoinDirname(dir, name);
    assert PosixPath.Join(dir, "sample.pdf") == dir + "/sample.pdf";
    JoinInjective(dir, name, "sample.pdf");
  }

  /** Nothing lies below `<dir>/out` in the scenarios, and `<dir>/out`
      itself is absent. */
  lemma SampleOutAbsent(files: map<string, Entry>, dir: string, pages: seq<Page>, name: string)
    requires SampleFiles(files, dir, pages) && PlainDir(dir)
    requires name != [] && forall k :: 0 <= k < |name| ==> name[k] != PosixPath.Sep
    ensures dir + "/out" !in files && PosixPath.Join(dir + "/out", name) !in files
  {
    var out := dir + "/out";
    SampleAbsent(files, dir, pages, "out");
    PlainDirName(dir);
    assert PosixPath.Join(dir, "out") == out;
    PlainDirName(out);
    PosixPath.JoinDirname(out, name);
    assert !DirectoryAt(files, out);
    PlacedOf(files, PosixPath.Join(out, name));
  }

  /** `os.makedirs` on a directory that is there changes nothing. */
  lemma MakeDirsExisting(files: map<string, Entry>, dir: string)
    requires WellFormed(files) && !PosixPath.AllSep(dir) && IsDirectoryIn(files, PosixPath.TrimSep(dir))
    ensures MakeDirs(files, dir) == (files, None)
  {
    StemIsTrimmed(dir);
    TrimmedKey(dir);
    var key := PosixPath.TrimSep(dir);
    assert Placed(files, key);
    MkdirSucceeds(files, dir);
  }

  /** `os.mkdir` inside a directory that is there, on a name that is free
      or a directory, raises nothing. */
  lemma MkdirSucceeds(files: map<string, Entry>, name: string)
    requires name != "" && !PosixPath.AllSep(name)
    requires DirectoryAt(files, PosixPath.Dirname(PosixPath.RStripSep(name)))
    requires PosixPath.RStripSep(name) in files ==> files[PosixPath.RStripSep(name)].Directory?
    ensures MkdirError(files, name) == None && Mkdir(files, name).1 == None
  {
  }

  /** `os.makedirs` on a new name inside a directory that is there makes
      just that directory. */
  lemma MakeDirsOneLevel(files: map<string, Entry>, dir: string)
    requires PlainDir(dir) && dir !in files && DirectoryAt(files, PosixPath.Dirname(dir))
    ensures MakeDirs(files, dir) == (files[dir := Directory], None)
  {
    PlainDirName(dir);
    StemIsTrimmed(dir);
  }

  /** Splitting a three-page `sample.pdf` into its own directory writes
      `<dir>/sample_001.pdf` to `<dir>/sample_003.pdf` (`SampleName001`
      to `SampleName003` spell them out), in order, output `i` holding page
      `i`; nothing else appears. */
  lemma SplitAllPagesExample(files: map<string, Entry>, dir: string, pages: seq<Page>, events: seq<(nat, nat)>)
    requires SampleFiles(files, dir, pages) && PlainDir(dir) && |pages| == 3
    ensures var r := SplitOutcome(files, events,
                                  Request(dir + "/sample.pdf", Some(dir), NameFormat.DefaultPattern, None, false));
      WroteDefaultOutputs(r, Job(Document(pages, false), [0, 1, 2], "sample", dir), events, false)
      && r.files.Keys == files.Keys + WrittenPaths(r)
  {
    var req := Request(dir + "/sample.pdf", Some(dir), NameFormat.DefaultPattern, None, false);
    PageSelection.EmptySelectsAll(None, 3);
    assert PageSelection.AllPages(3) == [0, 1, 2];
    var job := Job(Document(pages, false), [0, 1, 2], "sample", dir);
    SampleJob(files, dir, pages, req, [0, 1, 2]);
    PlainDirName(dir);
    MakeDirsExisting(files, dir);
    forall i | 1 <= i <= 3 ensures !IsDirectoryIn(files, PosixPath.Join(dir, DefaultName("sample", i))) {
      SampleOutputAbsent(files, dir, pages, i);
    }
    SplitOutcomeRuns(files, events, req, job, files);
    DefaultIterate(files, events, job, false);
  }

  /** The default names of `sample` are not taken in the scenarios'
      directory. */
  lemma SampleOutputAbsent(files: map<string, Entry>, dir: string, pages: seq<Page>, i: nat)
    requires SampleFiles(files, dir, pages) && PlainDir(dir)
    ensures PosixPath.Join(dir, DefaultName("sample", i)) !in files
  {
    DefaultNamePlain("sample", i);
    assert |DefaultName("sample", i)| >= 14;
    SampleAbsent(files, dir, pages, DefaultName("sample", i));
  }

  /** Splitting pages "2-3" of a five-page `sample.pdf` into a new
      directory `<dir>/out` creates that directory and writes exactly two
      files into it, `sample_001.pdf` with page 2 and `sample_002.pdf` with
      page 3; nothing else appears. */
  lemma SplitPageRangeExample(files: map<string, Entry>, dir: string, pages: seq<Page>, events: seq<(nat, nat)>)
    requires SampleFiles(files, dir, pages) && PlainDir(dir) && |pages| == 5
    ensures var out := dir + "/out";
      var r := SplitOutcome(files, events,
                            Request(dir + "/sample.pdf", Some(out), NameFormat.DefaultPattern, Some("2-3"), false));
      WroteDefaultOutputs(r, Job(Document(pages, false), [1, 2], "sample", out), events, false)
      && IsDirectoryIn(r.files, out)
      && r.files.Keys == files.Keys + {out} + WrittenPaths(r)
  {
    PageSelection.TestPageRange();
    SplitTwoPages(files, dir, pages, Some("2-3"), events);
  }

  /** Any selection of the second and third of five pages behaves so. */
  lemma SplitTwoPages(files: map<string, Entry>, dir: string, pages: seq<Page>, sel: Option<string>,
                      events: seq<(nat, nat)>)
    requires SampleFiles(files, dir, pages) && PlainDir(dir)
    requires |pages| == 5 && PageSelection.Selection(sel, 5) == Ok([1, 2])
    ensures var out := dir + "/out";
      var r := SplitOutcome(files, events,
                            Request(dir + "/sample.pdf", Some(out), NameFormat.DefaultPattern, sel, false));
      WroteDefaultOutputs(r, Job(Document(pages, false), [1, 2], "sample", out), events, false)
      && IsDirectoryIn(r.files, out)
      && r.files.Keys == files.Keys + {out} + WrittenPaths(r)
  {
    var out := dir + "/out";
    var req := Request(dir + "/sample.pdf", Some(out), NameFormat.DefaultPattern, sel, false);
    var job := Job(Document(pages, false), [1, 2], "sample", out);
    SampleJob(files, dir, pages, req, [1, 2]);
    SampleOutNew(files, dir, pages);
    var made := files[out := Directory];
    forall i | 1 <= i <= 2 ensures !IsDirectoryIn(made, PosixPath.Join(out, DefaultName("sample", i))) {
      SampleOutOutputAbsent(files, dir, pages, i);
    }
    PlainDirName(out);
    SplitOutcomeRuns(files, events, req, job, made);
    DefaultIterate(made, events, job, false);
  }

  /** The default names of `sample` are free in a new `<dir>/out`. */
  lemma SampleOutOutputAbsent(files: map<string, Entry>, dir: string, pages: seq<Page>, i: nat)
    requires SampleFiles(files, dir, pages) && PlainDir(dir)
    ensures !IsDirectoryIn(files[dir + "/out" := Directory], PosixPath.Join(dir + "/out", DefaultName("sample", i)))
  {
    var out := dir + "/out";
    var name := DefaultName("sample", i);
    DefaultNamePlain("sample", i);
    SampleOutAbsent(files, dir, pages, name);
    JoinLonger(out, name);
    var path := PosixPath.Join(out, name);
    assert path != out && path !in files;
  }

  /** `<dir>/out` is not in the scenarios' file system, and
      `os.makedirs` makes exactly it. */
  lemma SampleOutNew(files: map<string, Entry>, dir: string, pages: seq<Page>)
    requires SampleFiles(files, dir, pages) && PlainDir(dir)
    ensures MakeDirs(files, dir + "/out") == (files[dir + "/out" := Directory], None)
  {
    var out := dir + "/out";
    SampleAbsent(files, dir, pages, "out");
    PlainDirName(dir);
    assert PosixPath.Join(dir, "out") == out;
    PosixPath.JoinDirname(dir, "out");
    MakeDirsOneLevel(files, out);
  }

  // ---------------------------------------------------------------------
  // Nested directories and names `open` refuses
  // ---------------------------------------------------------------------

  /** In a well-formed file system a failed `os.makedirs` changes nothing:
      each check that can fail comes before the first directory is made. */
  lemma {:induction false} MakeDirsFailsUnchanged(files: map<string, Entry>, name: string)
    requires WellFormed(files)
    ensures MakeDirs(files, name).1.Some? ==> MakeDirs(files, name).0 == files
    decreases |name|
  {
    var stem := if !PosixPath.Named(name) then PosixPath.Dirname(name) else name;
    var head := PosixPath.Dirname(stem);
    StemIsTrimmed(name);
    if head != "" && PosixPath.Named(stem) && !Exists(files, head) {
      var made := MakeDirs(files, head);
      MakeDirsFailsUnchanged(files, head);
      PosixPath.DirnameTrimmed(stem);
      assert stem != [] && stem[|stem| - 1] != PosixPath.Sep;
      assert !PosixPath.AllSep(name);
      TrimmedKey(name);
      var key := PosixPath.RStripSep(name);
      assert key == stem;
      PlacedOf(files, key);
      if made.1.Some? && made.1.value.FileExists? {
        assert false;
      } else if made.1 == None && !PosixPath.DotNamed(stem) {
        MkdirSucceeds(made.0, name);
      }
      assert MakeDirs(files, name)
        == if made.1.Some? then made else if PosixPath.DotNamed(stem) then (made.0, None) else Mkdir(made.0, name);
    } else {
      assert MakeDirs(files, name) == Mkdir(files, name);
    }
  }

  /** `os.makedirs("a/b")` in an empty current directory makes "a" first. */
  lemma MakeDirsMakesParents()
    ensures MakeDirs(map[], "a/b") == (map["a" := Directory, "a/b" := Directory], None)
  {
    NamesAB();
    var one := map["a" := Directory];
    assert MakeDirs(map[], "a") == (one, None);
    assert Mkdir(one, "a/b") == (one["a/b" := Directory], None);
  }

  /** Under a file "a", `os.makedirs("a/b")` raises NotADirectoryError and
      changes nothing. */
  lemma MakeDirsUnderFile()
    ensures MakeDirs(map["a" := OtherFile], "a/b") == (map["a" := OtherFile], Some(NotADirectory("a/b")))
  {
    NamesAB();
    assert !DirectoryAt(map["a" := OtherFile], "a");
  }

  /** The names "a/b" and "a" taken apart. */
  lemma NamesAB()
    ensures PosixPath.Named("a/b") && !PosixPath.DotNamed("a/b") && PosixPath.Named("a")
    ensures PosixPath.RStripSep("a/b") == "a/b" && PosixPath.RStripSep("a") == "a"
    ensures PosixPath.Dirname("a/b") == "a" && PosixPath.Dirname("a") == ""
    ensures !PosixPath.AllSep("a/b") && !PosixPath.AllSep("a")
  {
    assert PosixPath.Join("a", "b") == "a/b";
    PosixPath.JoinDirname("a", "b");
    assert !PosixPath.AllSep("a") by { assert "a"[0] != PosixPath.Sep; }
    assert !PosixPath.AllSep("a/b") by { assert "a/b"[0] != PosixPath.Sep; }
    assert PosixPath.RFind("a", PosixPath.Sep) == -1;
  }

  /** A name that reaches into a missing subdirectory, such as
      `sub/001.pdf` under "out", makes `open` raise FileNotFoundError. */
  lemma OpenMissingSubdirectory()
    ensures OpenError(map["out" := Directory], TargetOf("out", "sub/001.pdf")) == Some(DirNotFound("out/sub/001.pdf"))
  {
    NamesOutSub();
    assert !DirectoryAt(map["out" := Directory], "out/sub");
  }

  /** The name "out/sub/001.pdf" taken apart. */
  lemma NamesOutSub()
    ensures PosixPath.Join("out", "sub/001.pdf") == "out/sub/001.pdf"
    ensures PosixPath.RStripSep("out/sub/001.pdf") == "out/sub/001.pdf"
    ensures PosixPath.Dirname("out/sub/001.pdf") == "out/sub"
  {
    var path := "out/sub/001.pdf";
    assert PosixPath.Join("out", "sub/001.pdf") == path;
    assert PosixPath.Join("out/sub", "001.pdf") == path;
    PosixPath.JoinDirname("out/sub", "001.pdf");
    assert !PosixPath.AllSep("out/sub") by { assert "out/sub"[0] != PosixPath.Sep; }
  }

  /** An empty name joined onto "out" is "out/", which `open` refuses
      with IsADirectoryError. */
  lemma OpenEmptyName()
    ensures OpenError(map["out" := Directory], TargetOf("out", "")) == Some(IsADirectory("out/"))
  {
    var path := PosixPath.Join("out", "");
    assert path == "out/";
    assert PosixPath.Basename(path) == "";
    assert PosixPath.RStripSep(path) == "out";
    assert PosixPath.RFind("out", PosixPath.Sep) == -1;
    assert PosixPath.Dirname("out") == "";
  }

  // ---------------------------------------------------------------------
  // A PDF named without a directory
  // ---------------------------------------------------------------------

  /** The PDF given by a bare file name, with no output directory. */
  function BareRequest(name: string): Request {
    Request(name, None, NameFormat.DefaultPattern, None, false)
  }

  /** With no '/' in the path, the output directory falls back to "". */
  lemma BareJob(name: string, doc: Document)
    requires forall k :: 0 <= k < |name| ==> name[k] != PosixPath.Sep
    requires !doc.encrypted
    ensures Prepare(map[name := PdfFile(doc)], BareRequest(name))
      == Ok(Job(doc, PageSelection.AllPages(|doc.pages|), BaseName(name), ""))
  {
    assert PosixPath.RFind(name, PosixPath.Sep) == -1;
    PageSelection.EmptySelectsAll(None, |doc.pages|);
  }

  /** As written, `os.makedirs("")` raises FileNotFoundError, so splitting
      `sample.pdf` in the current directory without `--out-dir` fails
      before writing anything, although the output directory is meant to
      default to the PDF's own folder. */
  lemma BareNameFailsAsWritten(name: string, doc: Document, events: seq<(nat, nat)>)
    requires forall k :: 0 <= k < |name| ==> name[k] != PosixPath.Sep
    requires !doc.encrypted
    ensures var files := map[name := PdfFile(doc)];
      SplitOutcomeAsWritten(files, events, BareRequest(name)) == Run(files, events, [], Some(DirNotFound("")))
  {
    BareJob(name, doc);
  }

  /** Corrected, the same call writes every page into the current
      directory under its default name. */
  lemma BareNameSplits(name: string, doc: Document, events: seq<(nat, nat)>)
    requires forall k :: 0 <= k < |name| ==> name[k] != PosixPath.Sep
    requires !doc.encrypted
    ensures var r := SplitOutcome(map[name := PdfFile(doc)], events, BareRequest(name));
      WroteDefaultOutputs(r, Job(doc, PageSelection.AllPages(|doc.pages|), BaseName(name), ""), events, false)
      && forall i :: 1 <= i <= |doc.pages| ==> r.written[i - 1] == DefaultName(BaseName(name), i)
  {
    var files := map[name := PdfFile(doc)];
    var job := Job(doc, PageSelection.AllPages(|doc.pages|), BaseName(name), "");
    BareJob(name, doc);
    forall i | 1 <= i <= |job.indexes| ensures !IsDirectoryIn(files, PosixPath.Join("", DefaultName(job.base, i))) {
      NoDirectory(name, doc, PosixPath.Join("", DefaultName(job.base, i)));
    }
    DefaultSplit(files, events, BareRequest(name), job);
    var r := SplitOutcome(files, events, BareRequest(name));
    BareOutputNames(r, job, events);
  }

  /** The correction changes only the calls whose output directory is
      "": every other call behaves as the source has it, and for "" the
      source raises FileNotFoundError before writing anything. */
  lemma CorrectionOnlyForEmpty(files: map<string, Entry>, events: seq<(nat, nat)>, req: Request)
    ensures Prepare(files, req).Err? || Prepare(files, req).value.outDir != "" ==>
      SplitOutcome(files, events, req) == SplitOutcomeAsWritten(files, events, req)
    ensures Prepare(files, req).Ok? && Prepare(files, req).value.outDir == "" ==>
      SplitOutcomeAsWritten(files, events, req) == Run(files, events, [], Some(DirNotFound("")))
  {
  }

  /** A file system holding only the PDF has no directory. */
  lemma NoDirectory(name: string, doc: Document, p: string)
    ensures !IsDirectoryIn(map[name := PdfFile(doc)], p)
  {
  }

  /** Outputs written into "" are named by their default names alone. */
  lemma BareOutputNames(r: Run, job: Job, events: seq<(nat, nat)>)
    requires WroteDefaultOutputs(r, job, events, false) && job.outDir == "" && PlainBase(job)
    ensures forall i :: 1 <= i <= |job.indexes| ==> r.written[i - 1] == DefaultName(job.base, i)
  {
    JoinNothing(job.base, |job.indexes|);
  }

  /** Joining onto the empty directory leaves a default name as it is. */
  lemma JoinNothing(base: string, n: nat)
    requires forall k :: 0 <= k < |base| ==> base[k] != PosixPath.Sep
    ensures forall i :: 1 <= i <= n ==> PosixPath.Join("", DefaultName(base, i)) == DefaultName(base, i)
  {
    forall i | 1 <= i <= n ensures PosixPath.Join("", DefaultName(base, i)) == DefaultName(base, i) {
      DefaultNameStart(base, i);
    }
  }
}
