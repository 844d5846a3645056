/** pkg/omh.go: the converter that copies the static files of a loaded
    vault tree into Hugo's `static/<SubPath>`, writes every note as a page
    into `content/<SubPath>` and rewrites the wiki links between them. */
module Omh {
  import opened Wrappers
  import Texts
  import opened Paths
  import opened Maps
  import opened FrontMatter
  import opened ObsidianNote
  import opened ObsidianDirectory
  import opened WikiLinks

  /** What the conversion leaves below the Hugo root: a copy of a vault
      file, or a page. */
  datatype Output = Copy(source: string) | Page(text: string)

  /** `yaml.Marshal`, which may fail with a message. */
  type Marshal = Matter -> Result<string, string>

  /** The error `processNotes` returns: the title of the note that could not
      be converted and the cause. */
  datatype RunError = ConvertFailed(title: string, cause: string)

  /** The converter's fixed inputs, with the clock and the YAML encoder the
      Go code reaches through globals and libraries. */
  datatype Settings = Settings(
    convertName: string -> string,
    hugoRoot: string,
    subPath: string,
    frontMatter: Matter,
    tagsKey: string,
    clock: Clock,
    marshal: Marshal)

  function StaticRoot(s: Settings): string
  {
    Join(Join(s.hugoRoot, "static"), s.subPath)
  }

  function ContentRoot(s: Settings): string
  {
    Join(Join(s.hugoRoot, "content"), s.subPath)
  }

  // ---------------------------------------------------------------------
  // The file phase

  /** The converted name of a static file: its stem converted, its
      extension kept. */
  function DestName(convert: string -> string, file: string): string
  {
    convert(Texts.TrimSuffix(file, Ext(file))) + Ext(file)
  }

  /** One copy of the file phase: the vault file name (the link-map key),
      where it is read from, and where it goes relative to the static root. */
  datatype Copied = Copied(file: string, source: string, dest: string)

  predicate SkipInFiles(c: Directory)
  {
    |c.childs| == 0 && |c.files| == 0
  }

  /** Skipping such a child loses no copy. */
  lemma SkipInFilesLosesNothing(c: Directory, convert: string -> string, rel: string)
    requires SkipInFiles(c)
    ensures FileCopies(c, convert, rel) == []
  {
    assert LocalCopies(c, convert, rel) == [];
  }

  function LocalCopies(d: Directory, convert: string -> string, rel: string): seq<Copied>
  {
    seq(|d.files|, i requires 0 <= i < |d.files| =>
      Copied(d.files[i], Join(d.path, d.files[i]), Join(rel, DestName(convert, d.files[i]))))
  }

  /** The copies `processFiles` makes, in order: this directory's files,
      then every child that is not skipped, depth first. */
  function FileCopies(d: Directory, convert: string -> string, rel: string): seq<Copied>
    decreases d, 1, 0
  {
    LocalCopies(d, convert, rel) + ChildCopiesFrom(d, convert, rel, 0)
  }

  /** The copies of the children from index `j` on. */
  function ChildCopiesFrom(d: Directory, convert: string -> string, rel: string, j: nat): seq<Copied>
    requires j <= |d.childs|
    decreases d, 0, |d.childs| - j
  {
    if j == |d.childs| then []
    else ChildCopies(d, convert, rel, j) + ChildCopiesFrom(d, convert, rel, j + 1)
  }

  /** The copies of child `j`: none when the file phase skips it, its own
      walk otherwise. */
  function ChildCopies(d: Directory, convert: string -> string, rel: string, j: nat): seq<Copied>
    requires j < |d.childs|
    decreases d, 0, 0
  {
    var c := d.childs[j];
    if SkipInFiles(c) then [] else FileCopies(c, convert, ChildRel(convert, rel, c))
  }

  /** The link-map assignments of the copies. */
  function FileLinks(cs: seq<Copied>): seq<(string, string)>
  {
    seq(|cs|, i requires 0 <= i < |cs| => (cs[i].file, cs[i].dest))
  }

  /** The outputs of the copies, below the static root. */
  function CopyOutputs(root: string, cs: seq<Copied>): seq<(string, Output)>
  {
    seq(|cs|, i requires 0 <= i < |cs| => (Join(root, cs[i].dest), Copy(cs[i].source)))
  }

  // ---------------------------------------------------------------------
  // The note phase

  predicate SkipInNotes(c: Directory)
  {
    |c.childs| == 0 && |c.notes| == 0
  }

  /** Skipping such a child loses no visit. */
  lemma SkipInNotesLosesNothing(c: Directory, convert: string -> string, rel: string)
    requires SkipInNotes(c)
    ensures NoteVisits(c, convert, rel) == []
  {
    assert Local(c.notes, rel) == [];
  }

  /** The notes `processNotes` visits, in order, with the converted path of
      their directory below the content root. */
  function NoteVisits(d: Directory, convert: string -> string, rel: string): seq<Placement>
    decreases d, 1, 0
  {
    Local(d.notes, rel) + ChildVisitsFrom(d, convert, rel, 0)
  }

  /** The visits of the children from index `j` on. */
  function ChildVisitsFrom(d: Directory, convert: string -> string, rel: string, j: nat): seq<Placement>
    requires j <= |d.childs|
    decreases d, 0, |d.childs| - j
  {
    if j == |d.childs| then []
    else ChildVisits(d, convert, rel, j) + ChildVisitsFrom(d, convert, rel, j + 1)
  }

  /** The visits of child `j`: none when the note phase skips it, its own
      walk otherwise. */
  function ChildVisits(d: Directory, convert: string -> string, rel: string, j: nat): seq<Placement>
    requires j < |d.childs|
    decreases d, 0, 0
  {
    var c := d.childs[j];
    if SkipInNotes(c) then [] else NoteVisits(c, convert, ChildRel(convert, rel, c))
  }

  /** `ConvertNote` on a placed note: `filepath.Join(hugoDir,
      ConvertName(title)) + ".md"`. */
  function PagePath(s: Settings, p: Placement): string
  {
    Join(Join(ContentRoot(s), p.dir), s.convertName(p.note.title)) + ".md"
  }

  /** The tags-key rename of `convertNote`. */
  function RenameTags(m: Matter, tagsKey: string): (r: Matter)
    ensures tagsKey == "" || tagsKey == "tags" || "tags" !in m ==> r == m
    ensures tagsKey != "" && tagsKey != "tags" && "tags" in m ==>
      && "tags" !in r && tagsKey in r && r[tagsKey] == m["tags"]
      && forall k :: k != "tags" && k != tagsKey ==> (k in r <==> k in m) && (k in r ==> r[k] == m[k])
  {
    if tagsKey != "" && tagsKey != "tags" && "tags" in m then m[tagsKey := m["tags"]] - {"tags"} else m
  }

  /** `convertNote`, reference definition: the Hugo front matter with the
      tags renamed, serialised between `---` lines, two blank lines, then
      the content with its wiki links rewritten. */
  function PageText(s: Settings, note: Note, links: map<string, string>): Result<string, string>
  {
    var matter := RenameTags(HugoMatter(note, s.frontMatter, s.clock), s.tagsKey);
    match s.marshal(matter)
    case Failure(e) => Failure(e)
    case Success(yaml) => Success("---\n" + yaml + "---\n\n\n" + Rewrite(note.content, links, s.subPath))
  }

  /** Writing the pages of `ps` in order into `w`; the first note that fails
      to convert stops the phase with what was written so far. */
  function WritePages(s: Settings, links: map<string, string>, w: map<string, Output>, ps: seq<Placement>)
    : (map<string, Output>, Option<RunError>)
    decreases |ps|
  {
    if ps == [] then (w, None)
    else match PageText(s, ps[0].note, links)
      case Failure(e) => (w, Some(ConvertFailed(ps[0].note.title, e)))
      case Success(text) => WritePages(s, links, w[PagePath(s, ps[0]) := Page(text)], ps[1..])
  }

  /** A page that converts is written and the rest follow. */
  lemma WritePageStep(s: Settings, links: map<string, string>, w: map<string, Output>,
                      ps: seq<Placement>, text: string)
    requires ps != [] && PageText(s, ps[0].note, links) == Success(text)
    ensures WritePages(s, links, w, ps) == WritePages(s, links, w[PagePath(s, ps[0]) := Page(text)], ps[1..])
  {
  }

  lemma {:induction false} WritePagesAppend(s: Settings, links: map<string, string>, w: map<string, Output>,
                                            a: seq<Placement>, b: seq<Placement>)
    ensures WritePages(s, links, w, a + b)
      == var (w1, r1) := WritePages(s, links, w, a);
         if r1.None? then WritePages(s, links, w1, b) else (w1, r1)
    decreases |a|
  {
    if a == [] {
      assert a + b == b;
    } else {
      assert (a + b)[0] == a[0] && (a + b)[1..] == a[1..] + b;
      match PageText(s, a[0].note, links)
      case Failure(e) =>
      case Success(text) => WritePagesAppend(s, links, w[PagePath(s, a[0]) := Page(text)], a[1..], b);
    }
  }

  /** After a run of pages that all converted, the phase goes on from what
      they wrote. */
  lemma WritePagesThen(s: Settings, links: map<string, string>, w: map<string, Output>,
                       a: seq<Placement>, b: seq<Placement>, w1: map<string, Output>)
    requires WritePages(s, links, w, a) == (w1, None)
    ensures WritePages(s, links, w, a + b) == WritePages(s, links, w1, b)
  {
    WritePagesAppend(s, links, w, a, b);
  }

  /** A failure ends the phase: nothing after it is written. */
  lemma WritePagesStops(s: Settings, links: map<string, string>, w: map<string, Output>,
                        a: seq<Placement>, b: seq<Placement>)
    requires WritePages(s, links, w, a).1.Some?
    ensures WritePages(s, links, w, a + b) == WritePages(s, links, w, a)
  {
    WritePagesAppend(s, links, w, a, b);
  }

  lemma LinksAppend(lm: map<string, string>, a: seq<Copied>, b: seq<Copied>)
    ensures Assign(lm, FileLinks(a + b)) == Assign(Assign(lm, FileLinks(a)), FileLinks(b))
  {
    assert FileLinks(a + b) == FileLinks(a) + FileLinks(b);
    AssignAppend(lm, FileLinks(a), FileLinks(b));
  }

  lemma OutputsAppend(w: map<string, Output>, root: string, a: seq<Copied>, b: seq<Copied>)
    ensures Assign(w, CopyOutputs(root, a + b)) == Assign(Assign(w, CopyOutputs(root, a)), CopyOutputs(root, b))
  {
    assert CopyOutputs(root, a + b) == CopyOutputs(root, a) + CopyOutputs(root, b);
    AssignAppend(w, CopyOutputs(root, a), CopyOutputs(root, b));
  }

  /** Once the copies `a` are assigned, what is left of `a + b` is `b`. */
  lemma CopiesThen(lm0: map<string, string>, w0: map<string, Output>, root: string,
                   a: seq<Copied>, b: seq<Copied>, lm: map<string, string>, w: map<string, Output>)
    requires lm == Assign(lm0, FileLinks(a)) && w == Assign(w0, CopyOutputs(root, a))
    ensures Assign(lm0, FileLinks(a + b)) == Assign(lm, FileLinks(b))
    ensures Assign(w0, CopyOutputs(root, a + b)) == Assign(w, CopyOutputs(root, b))
  {
    LinksAppend(lm0, a, b);
    OutputsAppend(w0, root, a, b);
  }

  lemma CopyStep(local: seq<Copied>, i: nat, root: string)
    requires i < |local|
    ensures FileLinks(local[..i + 1]) == FileLinks(local[..i]) + [(local[i].file, local[i].dest)]
    ensures CopyOutputs(root, local[..i + 1])
      == CopyOutputs(root, local[..i]) + [(Join(root, local[i].dest), Copy(local[i].source))]
  {
  }

  // ---------------------------------------------------------------------
  // Properties of the two phases

  /** The note phase visits exactly the notes the link map was built from,
      in the same order and under the same directory paths: a child it skips
      has no notes anywhere below it. */
  lemma {:induction false} VisitsArePlacements(d: Directory, convert: string -> string, rel: string)
    ensures NoteVisits(d, convert, rel) == Placements(d, convert, rel)
    decreases d, 1
  {
    ChildVisitsArePlacements(d, convert, rel, 0);
    assert ChildPlacements(d, convert, rel, 0) == [];
    assert [] + ChildVisitsFrom(d, convert, rel, 0) == ChildVisitsFrom(d, convert, rel, 0);
  }

  /** The children visited from `j` on complete the placements of the
      first `j` children to those of all of them. */
  lemma {:induction false} ChildVisitsArePlacements(d: Directory, convert: string -> string, rel: string, j: nat)
    requires j <= |d.childs|
    ensures ChildPlacements(d, convert, rel, j) + ChildVisitsFrom(d, convert, rel, j)
      == ChildPlacements(d, convert, rel, |d.childs|)
    decreases d, 0, |d.childs| - j
  {
    if j == |d.childs| {
      assert ChildVisitsFrom(d, convert, rel, j) == [];
    } else {
      var c := d.childs[j];
      var sub := ChildRel(convert, rel, c);
      var visited := if SkipInNotes(c) then [] else NoteVisits(c, convert, sub);
      var done := ChildPlacements(d, convert, rel, j);
      var rest := ChildVisitsFrom(d, convert, rel, j + 1);
      if SkipInNotes(c) {
        assert ChildPlacements(c, convert, sub, 0) == [];
        assert Placements(c, convert, sub) == [];
      } else {
        VisitsArePlacements(c, convert, sub);
      }
      assert visited == Placements(c, convert, sub);
      assert ChildVisitsFrom(d, convert, rel, j) == visited + rest;
      assert ChildPlacements(d, convert, rel, j + 1) == done + visited;
      ChildVisitsArePlacements(d, convert, rel, j + 1);
      Texts.AppendAssoc(done, visited, rest);
    }
  }

  /** A static file overrides a note of the same name in the link map:
      the copy assigned last for a vault file name decides its link. */
  lemma FileLinkWins(base: map<string, string>, cs: seq<Copied>, i: nat)
    requires i < |cs|
    requires forall j :: i < j < |cs| ==> cs[j].file != cs[i].file
    ensures cs[i].file in Assign(base, FileLinks(cs))
    ensures Assign(base, FileLinks(cs))[cs[i].file] == cs[i].dest
  {
    forall j | i < j < |cs| ensures FileLinks(cs)[j].0 != FileLinks(cs)[i].0 {
    }
    AssignLastWins(base, FileLinks(cs), i);
  }

  /** A link no static file shadows keeps its value from the link map, and
      the keys afterwards are the titles and the file names. */
  lemma NoteLinkKept(base: map<string, string>, cs: seq<Copied>, k: string)
    requires forall c :: c in cs ==> c.file != k
    ensures k in Assign(base, FileLinks(cs)) <==> k in base
    ensures k in base ==> Assign(base, FileLinks(cs))[k] == base[k]
  {
    forall i | 0 <= i < |cs| ensures FileLinks(cs)[i].0 != k {
      assert cs[i] in cs;
    }
    AssignUntouched(base, FileLinks(cs), k);
  }

  /** A converted file name keeps the extension of the vault file. */
  lemma DestNameKeepsExt(convert: string -> string, file: string)
    requires Ext(file) != ""
    ensures Ext(DestName(convert, file)) == Ext(file)
  {
    ExtShape(file);
    ExtOfSuffix(convert(Texts.TrimSuffix(file, Ext(file))), Ext(file));
  }

  /** A note phase that ends without error converted every visited note
      and wrote a page at each one's path; each path holds the page of the
      last note placed there, and every other path keeps what it had. */
  lemma {:induction false} WritePagesDone(s: Settings, links: map<string, string>, w: map<string, Output>,
                                          ps: seq<Placement>)
    requires WritePages(s, links, w, ps).1.None?
    ensures forall i :: 0 <= i < |ps| ==>
      PageText(s, ps[i].note, links).Success? && PagePath(s, ps[i]) in WritePages(s, links, w, ps).0
    ensures w.Keys <= WritePages(s, links, w, ps).0.Keys
    ensures forall i :: 0 <= i < |ps| && (forall j :: i < j < |ps| ==> PagePath(s, ps[j]) != PagePath(s, ps[i])) ==>
      WritePages(s, links, w, ps).0[PagePath(s, ps[i])] == Page(PageText(s, ps[i].note, links).value)
    ensures forall k :: k in w && (forall j :: 0 <= j < |ps| ==> PagePath(s, ps[j]) != k) ==>
      WritePages(s, links, w, ps).0[k] == w[k]
    decreases |ps|
  {
    if ps != [] {
      var text := PageText(s, ps[0].note, links).value;
      var w1 := w[PagePath(s, ps[0]) := Page(text)];
      WritePagesDone(s, links, w1, ps[1..]);
      forall i | 1 <= i < |ps| ensures ps[i] == ps[1..][i - 1] {
      }
    }
    forall i | 0 <= i < |ps| && (forall j :: i < j < |ps| ==> PagePath(s, ps[j]) != PagePath(s, ps[i]))
      ensures WritePages(s, links, w, ps).0[PagePath(s, ps[i])] == Page(PageText(s, ps[i].note, links).value)
    {
      WritePagesLastWins(s, links, w, ps, i);
    }
    forall k | k in w && (forall j :: 0 <= j < |ps| ==> PagePath(s, ps[j]) != k)
      ensures WritePages(s, links, w, ps).0[k] == w[k]
    {
      WritePagesUntouched(s, links, w, ps, k);
    }
  }

  /** A path no page of `ps` is written to keeps its old entry, or its
      absence, whether or not the phase fails. */
  lemma {:induction false} WritePagesUntouched(s: Settings, links: map<string, string>, w: map<string, Output>,
                                               ps: seq<Placement>, k: string)
    requires forall j :: 0 <= j < |ps| ==> PagePath(s, ps[j]) != k
    ensures k in WritePages(s, links, w, ps).0 <==> k in w
    ensures k in w ==> WritePages(s, links, w, ps).0[k] == w[k]
    decreases |ps|
  {
    if ps != [] && PageText(s, ps[0].note, links).Success? {
      forall j | 0 <= j < |ps| - 1 ensures PagePath(s, ps[1..][j]) != k {
        assert ps[1..][j] == ps[j + 1];
      }
      WritePagesUntouched(s, links, w[PagePath(s, ps[0]) := Page(PageText(s, ps[0].note, links).value)], ps[1..], k);
    }
  }

  /** A note phase that ends without error leaves at each page path the
      page of the last note placed there. */
  lemma {:induction false} WritePagesLastWins(s: Settings, links: map<string, string>, w: map<string, Output>,
                                              ps: seq<Placement>, i: nat)
    requires WritePages(s, links, w, ps).1.None?
    requires i < |ps|
    requires forall j :: i < j < |ps| ==> PagePath(s, ps[j]) != PagePath(s, ps[i])
    ensures PageText(s, ps[i].note, links).Success?
    ensures PagePath(s, ps[i]) in WritePages(s, links, w, ps).0
    ensures WritePages(s, links, w, ps).0[PagePath(s, ps[i])] == Page(PageText(s, ps[i].note, links).value)
    decreases |ps|
  {
    var w1 := w[PagePath(s, ps[0]) := Page(PageText(s, ps[0].note, links).value)];
    if i == 0 {
      forall j | 0 <= j < |ps| - 1 ensures PagePath(s, ps[1..][j]) != PagePath(s, ps[0]) {
        assert ps[1..][j] == ps[j + 1];
      }
      WritePagesUntouched(s, links, w1, ps[1..], PagePath(s, ps[0]));
    } else {
      assert ps[1..][i - 1] == ps[i];
      forall j | i - 1 < j < |ps| - 1 ensures PagePath(s, ps[1..][j]) != PagePath(s, ps[i]) {
        assert ps[1..][j] == ps[j + 1];
      }
      WritePagesLastWins(s, links, w1, ps[1..], i - 1);
    }
  }

  /** The note at `i` is the first of `ps` that fails to convert, with the
      error `err` describes. */
  predicate FirstFailure(s: Settings, links: map<string, string>, ps: seq<Placement>, i: nat, err: RunError)
  {
    i < |ps| && err == ConvertFailed(ps[i].note.title, err.cause)
    && PageText(s, ps[i].note, links) == Failure(err.cause)
    && forall j :: 0 <= j < i ==> PageText(s, ps[j].note, links).Success?
  }

  /** A note phase that fails names a visited note whose conversion failed,
      after all notes before it converted. */
  lemma {:induction false} WritePagesFailed(s: Settings, links: map<string, string>, w: map<string, Output>,
                                            ps: seq<Placement>)
    requires WritePages(s, links, w, ps).1.Some?
    ensures exists i :: FirstFailure(s, links, ps, i, WritePages(s, links, w, ps).1.value)
    decreases |ps|
  {
    var err := WritePages(s, links, w, ps).1.value;
    var head := PageText(s, ps[0].note, links);
    if head.Failure? {
      assert FirstFailure(s, links, ps, 0, err);
    } else {
      var w1 := w[PagePath(s, ps[0]) := Page(head.value)];
      WritePageStep(s, links, w, ps, head.value);
      WritePagesFailed(s, links, w1, ps[1..]);
      var i :| FirstFailure(s, links, ps[1..], i, err);
      FirstFailureShift(s, links, ps, i, err);
    }
  }

  lemma FirstFailureShift(s: Settings, links: map<string, string>, ps: seq<Placement>, i: nat, err: RunError)
    requires ps != [] && PageText(s, ps[0].note, links).Success?
    requires FirstFailure(s, links, ps[1..], i, err)
    ensures FirstFailure(s, links, ps, i + 1, err)
  {
    assert ps[i + 1] == ps[1..][i];
    forall j | 0 <= j < i + 1 ensures PageText(s, ps[j].note, links).Success? {
      if j > 0 {
        assert ps[j] == ps[1..][j - 1];
      }
    }
  }

  // ---------------------------------------------------------------------
  // The converter

  /** `Converter`. The file system below the Hugo root is the map `written`
      from path to output. */
  class Converter {
    const convertName: string -> string
    const obsidianRoot: Directory
    const hugoRoot: string
    const subPath: string
    const frontMatter: Matter
    const tagsKey: string
    const clock: Clock
    const marshal: Marshal
    var linkMap: map<string, string>
    var written: map<string, Output>

    constructor (convertName: string -> string, obsidianRoot: Directory, hugoRoot: string,
                 subPath: string, frontMatter: Matter, tagsKey: string, clock: Clock, marshal: Marshal)
      ensures this.convertName == convertName && this.obsidianRoot == obsidianRoot
      ensures this.hugoRoot == hugoRoot && this.subPath == subPath
      ensures this.frontMatter == frontMatter && this.tagsKey == tagsKey
      ensures this.clock == clock && this.marshal == marshal
      ensures linkMap == map[] && written == map[]
    {
      this.convertName := convertName;
      this.obsidianRoot := obsidianRoot;
      this.hugoRoot := hugoRoot;
      this.subPath := subPath;
      this.frontMatter := frontMatter;
      this.tagsKey := tagsKey;
      this.clock := clock;
      this.marshal := marshal;
      linkMap := map[];
      written := map[];
    }

    function Config(): Settings
    {
      Settings(convertName, hugoRoot, subPath, frontMatter, tagsKey, clock, marshal)
    }

    /** `init`: the link map of the whole tree. */
    method Init()
      modifies this
      ensures linkMap == LinkMapOf(obsidianRoot, convertName)
      ensures written == old(written)
    {
      linkMap := LinkMap(obsidianRoot, convertName);
    }

    /** `Run`: the link map, then the whole file phase, then the note
      phase, whose error is the result. Every page is therefore rendered
      with the link map that already holds every static file. */
    method Run() returns (r: Option<RunError>)
      modifies this
      ensures var copies := FileCopies(obsidianRoot, convertName, "");
        && linkMap == Assign(LinkMapOf(obsidianRoot, convertName), FileLinks(copies))
        && (written, r) == WritePages(Config(), linkMap,
             Assign(old(written), CopyOutputs(StaticRoot(Config()), copies)),
             NoteVisits(obsidianRoot, convertName, ""))
    {
      Init();
      ProcessFiles(obsidianRoot, "");
      r := ProcessNotes(obsidianRoot, "");
    }

    /** `processFiles` for the directory mirrored at `rel` below the static
      root: copy each file under its converted name and link its vault name
      to the copy, then recurse into every child that has children or
      files. */
    method ProcessFiles(dir: Directory, rel: string)
      modifies this
      ensures linkMap == Assign(old(linkMap), FileLinks(FileCopies(dir, convertName, rel)))
      ensures written == Assign(old(written), CopyOutputs(StaticRoot(Config()), FileCopies(dir, convertName, rel)))
      decreases dir, 1
    {
      ghost var root := StaticRoot(Config());
      ghost var local := LocalCopies(dir, convertName, rel);
      CopyFiles(dir, rel);
      assert FileCopies(dir, convertName, rel) == local + ChildCopiesFrom(dir, convertName, rel, 0);
      CopiesThen(old(linkMap), old(written), root, local, ChildCopiesFrom(dir, convertName, rel, 0), linkMap, written);

      var j := 0;
      while j < |dir.childs|
        invariant 0 <= j <= |dir.childs|
        invariant Assign(old(linkMap), FileLinks(FileCopies(dir, convertName, rel)))
          == Assign(linkMap, FileLinks(ChildCopiesFrom(dir, convertName, rel, j)))
        invariant Assign(old(written), CopyOutputs(root, FileCopies(dir, convertName, rel)))
          == Assign(written, CopyOutputs(root, ChildCopiesFrom(dir, convertName, rel, j)))
      {
        ghost var lm0, w0 := linkMap, written;
        ProcessChildFiles(dir, rel, j);
        LinksAppend(lm0, ChildCopies(dir, convertName, rel, j), ChildCopiesFrom(dir, convertName, rel, j + 1));
        OutputsAppend(w0, root, ChildCopies(dir, convertName, rel, j), ChildCopiesFrom(dir, convertName, rel, j + 1));
        j := j + 1;
      }
    }

    /** One turn of the second loop of `processFiles`: child `j` is skipped
        when it has neither files nor children, and walked otherwise; the
        maps gain exactly that child's copies. */
    method ProcessChildFiles(dir: Directory, rel: string, j: nat)
      requires j < |dir.childs|
      modifies this
      ensures linkMap == Assign(old(linkMap), FileLinks(ChildCopies(dir, convertName, rel, j)))
      ensures written == Assign(old(written), CopyOutputs(StaticRoot(Config()), ChildCopies(dir, convertName, rel, j)))
      decreases dir, 0
    {
      var sub := dir.childs[j];
      if |sub.childs| == 0 && |sub.files| == 0 {
        assert FileLinks([]) == [] && CopyOutputs(StaticRoot(Config()), []) == [];
        return;
      }
      ProcessFiles(sub, ChildRel(convertName, rel, sub));
    }

    /** The first loop of `processFiles`: the directory's own files. */
    method CopyFiles(dir: Directory, rel: string)
      modifies this
      ensures linkMap == Assign(old(linkMap), FileLinks(LocalCopies(dir, convertName, rel)))
      ensures written == Assign(old(written), CopyOutputs(StaticRoot(Config()), LocalCopies(dir, convertName, rel)))
      decreases dir, 0
    {
      var root := StaticRoot(Config());
      var hugoDir := Join(root, rel);
      ghost var local := LocalCopies(dir, convertName, rel);
      var i := 0;
      while i < |dir.files|
        invariant 0 <= i <= |dir.files|
        invariant linkMap == Assign(old(linkMap), FileLinks(local[..i]))
        invariant written == Assign(old(written), CopyOutputs(root, local[..i]))
      {
        var file := dir.files[i];
        var src := Join(dir.path, file);
        var ext := Ext(file);
        var name := convertName(Texts.TrimSuffix(file, ext)) + ext;
        var dst := Join(hugoDir, name);
        written := written[dst := Copy(src)];

        // the vault name now links to the copy
        linkMap := linkMap[file := Join(rel, name)];

        JoinAssociative(root, rel, name);
        CopyStep(local, i, root);
        AssignSnoc(old(linkMap), FileLinks(local[..i]), file, Join(rel, name));
        AssignSnoc(old(written), CopyOutputs(root, local[..i]), dst, Copy(src));
        i := i + 1;
      }
      assert local[..i] == local;
    }

    /** `processNotes` for the directory mirrored at `rel` below the content
      root: write each note's page, then recurse into every child that has
      children or notes; the first failure is returned. */
    method ProcessNotes(dir: Directory, rel: string) returns (r: Option<RunError>)
      modifies this
      ensures linkMap == old(linkMap)
      ensures (written, r) == WritePages(Config(), linkMap, old(written), NoteVisits(dir, convertName, rel))
      decreases dir, 1
    {
      ghost var local := Local(dir.notes, rel);
      ghost var children := ChildVisitsFrom(dir, convertName, rel, 0);
      r := WriteNotes(dir, rel);
      if r.Some? {
        WritePagesStops(Config(), linkMap, old(written), local, children);
        return;
      }
      WritePagesThen(Config(), linkMap, old(written), local, children, written);

      var j := 0;
      while j < |dir.childs|
        invariant 0 <= j <= |dir.childs|
        invariant linkMap == old(linkMap)
        invariant WritePages(Config(), linkMap, old(written), NoteVisits(dir, convertName, rel))
          == WritePages(Config(), linkMap, written, ChildVisitsFrom(dir, convertName, rel, j))
      {
        ghost var w0 := written;
        ghost var now, rest := ChildVisits(dir, convertName, rel, j), ChildVisitsFrom(dir, convertName, rel, j + 1);
        var err := ProcessChildNotes(dir, rel, j);
        if err.Some? {
          WritePagesStops(Config(), linkMap, w0, now, rest);
          return err;
        }
        WritePagesThen(Config(), linkMap, w0, now, rest, written);
        j := j + 1;
      }
      return None;
    }

    /** One turn of the second loop of `processNotes`: child `j` is skipped
        when it has neither notes nor children, and walked otherwise; the
        pages written and the error are those of that child's visits. */
    method ProcessChildNotes(dir: Directory, rel: string, j: nat) returns (err: Option<RunError>)
      requires j < |dir.childs|
      modifies this
      ensures linkMap == old(linkMap)
      ensures (written, err) == WritePages(Config(), linkMap, old(written), ChildVisits(dir, convertName, rel, j))
      decreases dir, 0
    {
      var sub := dir.childs[j];
      if |sub.childs| == 0 && |sub.notes| == 0 {
        return None;
      }
      err := ProcessNotes(sub, ChildRel(convertName, rel, sub));
    }

    /** The first loop of `processNotes`: the directory's own notes, each
      converted and written; the first that fails stops the loop. */
    method WriteNotes(dir: Directory, rel: string) returns (r: Option<RunError>)
      modifies this
      ensures linkMap == old(linkMap)
      ensures (written, r) == WritePages(Config(), linkMap, old(written), Local(dir.notes, rel))
      decreases dir, 0
    {
      var hugoDir := Join(ContentRoot(Config()), rel);
      ghost var local := Local(dir.notes, rel);
      var i := 0;
      while i < |dir.notes|
        invariant 0 <= i <= |dir.notes|
        invariant linkMap == old(linkMap)
        invariant WritePages(Config(), linkMap, old(written), local) == WritePages(Config(), linkMap, written, local[i..])
      {
        var note := dir.notes[i];
        assert local[i..][0] == Placement(note, rel) && local[i..][1..] == local[i + 1..];
        var hugoContent := ConvertNote(note);
        if hugoContent.Failure? {
          return Some(ConvertFailed(note.title, hugoContent.error));
        }
        var hugoPath := Join(hugoDir, convertName(note.title)) + ".md";
        WritePageStep(Config(), linkMap, written, local[i..], hugoContent.value);
        written := written[hugoPath := Page(hugoContent.value)];
        i := i + 1;
      }
      return None;
    }

    /** `convertNote`: the front matter written into a buffer, the tags
      renamed in place, then the rewritten content. */
    method ConvertNote(note: Note) returns (r: Result<string, string>)
      ensures r == PageText(Config(), note, linkMap)
    {
      var buf := "---\n";
      var matter := HugoFrontMatter(note, frontMatter, clock);
      if tagsKey != "" && tagsKey != "tags" {
        if "tags" in matter {
          var tags := matter["tags"];
          matter := matter[tagsKey := tags];
          matter := matter - {"tags"};
        }
      }
      var yaml := marshal(matter);
      if yaml.Failure? {
        return Failure(yaml.error);
      }
      buf := buf + yaml.value;
      buf := buf + "---\n\n\n";

      // wiki links become Markdown links through the link map
      var content := Rewrite(note.content, linkMap, subPath);
      buf := buf + content;
      return Success(buf);
    }
  }
}
