/** `LoadObsidianDirectory` (pkg/obsidian.go) over an in-memory directory
    listing instead of the file system. */
module ObsidianLoader {
  import opened Wrappers
  import Texts
  import opened Paths
  import opened FrontMatter
  import opened ObsidianNote
  import opened ObsidianDirectory

  /** An entry of a listing, in the order the listing returns them. A
      directory that cannot be listed and a file that cannot be read stand
      for the I/O errors of `ReadDir` and `ReadFile`. */
  datatype Entry =
    | Dir(name: string, listable: bool, entries: seq<Entry>)
    | File(name: string, data: Option<string>)

  /** `ObsidianFilter`, absent when the caller passes nil. */
  type Filter = Option<Note -> bool>

  predicate Hidden(e: Entry)
  {
    Texts.HasPrefix(e.name, ".")
  }

  predicate Accepts(filter: Filter, note: Note)
  {
    filter.None? || filter.value(note)
  }

  /** The directory read at `path`, reference definition. */
  function LoadSpec(path: string, node: Entry, filter: Filter, recurse: bool, decode: Decoder)
    : Result<Directory, LoadError>
    decreases node, 1, 0
  {
    if !node.Dir? || !node.listable then Failure(ReadError(path))
    else LoadFrom(path, node, filter, recurse, decode, 0, Directory(Base(path), path, [], [], []))
  }

  /** The loop over the listing from entry `i` on, with what was collected
      so far in `acc`; the first error ends it. */
  function LoadFrom(path: string, node: Entry, filter: Filter, recurse: bool, decode: Decoder,
                    i: nat, acc: Directory): Result<Directory, LoadError>
    requires node.Dir? && i <= |node.entries|
    decreases node, 0, |node.entries| - i
  {
    if i == |node.entries| then Success(acc)
    else match Step(path, node.entries[i], filter, recurse, decode, acc)
      case Failure(e) => Failure(e)
      case Success(next) => LoadFrom(path, node, filter, recurse, decode, i + 1, next)
  }

  /** What one entry `fi` of the listing at `path` does to the directory
      collected so far. */
  function Step(path: string, fi: Entry, filter: Filter, recurse: bool, decode: Decoder, acc: Directory)
    : Result<Directory, LoadError>
    decreases fi, 2, 0
  {
    var p := Join(path, fi.name);
    if Hidden(fi) then Success(acc)
    else if fi.Dir? then
      if !recurse then Success(acc)
      else match LoadSpec(p, fi, filter, true, decode)
        case Failure(e) => Failure(e)
        case Success(sub) => if Empty(sub) then Success(acc) else Success(acc.(childs := acc.childs + [sub]))
    else if Ext(p) == ".md" then
      match NoteOf(p, fi.data, decode)
      case Failure(e) => if e == FrontMatterError(ErrNoFrontMatter) then Success(acc) else Failure(e)
      case Success(note) =>
        if !Accepts(filter, note) then Success(acc) else Success(acc.(notes := acc.notes + [note]))
    else Success(acc.(files := acc.files + [fi.name]))
  }

  /** `LoadObsidianDirectory`: list the directory, then one pass over the
      entries, each handled by `LoadEntry`; the first error ends the load. */
  method LoadObsidianDirectory(path: string, node: Entry, filter: Filter, recurse: bool, decode: Decoder)
    returns (r: Result<Directory, LoadError>)
    ensures r == LoadSpec(path, node, filter, recurse, decode)
    decreases node, 1
  {
    if !node.Dir? || !node.listable {
      return Failure(ReadError(path));
    }
    var dir := Directory(Base(path), path, [], [], []);
    var i := 0;
    while i < |node.entries|
      invariant 0 <= i <= |node.entries|
      invariant LoadSpec(path, node, filter, recurse, decode)
        == LoadFrom(path, node, filter, recurse, decode, i, dir)
    {
      var next := LoadEntry(path, node.entries[i], filter, recurse, decode, dir);
      if next.Failure? {
        return Failure(next.error);
      }
      dir := next.value;
      i := i + 1;
    }
    return Success(dir);
  }

  /** The body of the loop for one entry `fi`: skip it when hidden, recurse
      into a directory (dropping an empty one), load a Markdown note
      (skipping one without front matter or rejected by the filter) and
      keep any other file by name. */
  method LoadEntry(path: string, fi: Entry, filter: Filter, recurse: bool, decode: Decoder, dir: Directory)
    returns (r: Result<Directory, LoadError>)
    ensures r == Step(path, fi, filter, recurse, decode, dir)
    decreases fi, 2
  {
    // entries whose name starts with a dot are skipped
    if Texts.HasPrefix(fi.name, ".") {
      return Success(dir);
    }

    var p := Join(path, fi.name);

    if fi.Dir? {
      if !recurse {
        return Success(dir);
      }
      var sub := LoadObsidianDirectory(p, fi, filter, true, decode);
      if sub.Failure? {
        return Failure(sub.error);
      } else if Empty(sub.value) {
        return Success(dir);
      }
      return Success(dir.(childs := dir.childs + [sub.value]));
    } else if Ext(p) == ".md" {
      var note := LoadObsidianNote(p, fi.data, decode);
      if note.Failure? {
        // a note without front matter is skipped; any other failure ends the load
        if note.error == FrontMatterError(ErrNoFrontMatter) {
          return Success(dir);
        }
        return Failure(note.error);
      }
      if filter.Some? && !filter.value(note.value) {
        return Success(dir);
      }
      return Success(dir.(notes := dir.notes + [note.value]));
    }
    return Success(dir.(files := dir.files + [fi.name]));
  }

  /** Reference lists: the names of the visible static files of a listing,
      and its visible notes that load and pass the filter, both in listing
      order. */
  function StaticFiles(path: string, es: seq<Entry>): seq<string>
  {
    if es == [] then [] else StaticFile(path, es[0]) + StaticFiles(path, es[1..])
  }

  function StaticFile(path: string, e: Entry): seq<string>
  {
    if !Hidden(e) && e.File? && Ext(Join(path, e.name)) != ".md" then [e.name] else []
  }

  function AcceptedNotes(path: string, es: seq<Entry>, filter: Filter, decode: Decoder): seq<Note>
  {
    if es == [] then [] else AcceptedNote(path, es[0], filter, decode) + AcceptedNotes(path, es[1..], filter, decode)
  }

  function AcceptedNote(path: string, e: Entry, filter: Filter, decode: Decoder): seq<Note>
  {
    var p := Join(path, e.name);
    if Hidden(e) || !e.File? || Ext(p) != ".md" then []
    else match NoteOf(p, e.data, decode)
      case Success(note) => if Accepts(filter, note) then [note] else []
      case Failure(_) => []
  }

  /** The children a listing contributes under recursion: each visible
      sub-directory whose own load succeeds and is not empty, in listing
      order. */
  function LoadedChilds(path: string, es: seq<Entry>, filter: Filter, decode: Decoder): seq<Directory>
  {
    if es == [] then [] else LoadedChild(path, es[0], filter, decode) + LoadedChilds(path, es[1..], filter, decode)
  }

  function LoadedChild(path: string, e: Entry, filter: Filter, decode: Decoder): seq<Directory>
  {
    if Hidden(e) || !e.Dir? then []
    else match LoadSpec(Join(path, e.name), e, filter, true, decode)
      case Success(sub) => if Empty(sub) then [] else [sub]
      case Failure(_) => []
  }

  /** The error one entry raises, if any: a visible sub-directory that fails
      to load (only when recursing), or a visible Markdown file that fails to
      load for a reason other than a missing front matter. */
  function EntryError(path: string, e: Entry, filter: Filter, recurse: bool, decode: Decoder): Option<LoadError>
  {
    var p := Join(path, e.name);
    if Hidden(e) then None
    else if e.Dir? then
      if !recurse then None
      else match LoadSpec(p, e, filter, true, decode)
        case Failure(err) => Some(err)
        case Success(_) => None
    else if Ext(p) == ".md" then
      match NoteOf(p, e.data, decode)
      case Failure(err) => if err == FrontMatterError(ErrNoFrontMatter) then None else Some(err)
      case Success(_) => None
    else None
  }

  predicate Broken(path: string, e: Entry, filter: Filter, recurse: bool, decode: Decoder)
  {
    EntryError(path, e, filter, recurse, decode).Some?
  }

  /** Entry `k` is the first broken one of the listing. */
  predicate FirstBroken(path: string, es: seq<Entry>, k: nat, filter: Filter, recurse: bool, decode: Decoder)
  {
    k < |es| && Broken(path, es[k], filter, recurse, decode)
    && forall j :: 0 <= j < k ==> !Broken(path, es[j], filter, recurse, decode)
  }

  /** One entry keeps name and path and adds at most its own name as a
      static file or its own note, the note only when it loads and the
      filter accepts it. */
  lemma StepContents(path: string, fi: Entry, filter: Filter, recurse: bool, decode: Decoder,
                     acc: Directory, next: Directory)
    requires Step(path, fi, filter, recurse, decode, acc) == Success(next)
    ensures next.name == acc.name && next.path == acc.path
    ensures next.files == acc.files + StaticFile(path, fi)
    ensures next.notes == acc.notes + AcceptedNote(path, fi, filter, decode)
  {
  }

  /** One entry adds the child it loads when recursing, and none otherwise. */
  lemma StepChild(path: string, fi: Entry, filter: Filter, recurse: bool, decode: Decoder,
                  acc: Directory, next: Directory)
    requires Step(path, fi, filter, recurse, decode, acc) == Success(next)
    ensures next.childs == acc.childs + (if recurse then LoadedChild(path, fi, filter, decode) else [])
  {
  }

  /** A step fails exactly when its entry is broken, and with that entry's
      error; otherwise it succeeds, whatever was collected before. */
  lemma StepError(path: string, fi: Entry, filter: Filter, recurse: bool, decode: Decoder, acc: Directory)
    ensures Step(path, fi, filter, recurse, decode, acc).Failure? <==> Broken(path, fi, filter, recurse, decode)
    ensures Broken(path, fi, filter, recurse, decode) ==>
      Step(path, fi, filter, recurse, decode, acc) == Failure(EntryError(path, fi, filter, recurse, decode).value)
  {
  }

  /** A pass that succeeds from entry `i` got past that entry: its step
      succeeded and the pass from the next entry succeeds alike. */
  lemma LoadFromNext(path: string, node: Entry, filter: Filter, recurse: bool,
                     decode: Decoder, i: nat, acc: Directory, d: Directory) returns (next: Directory)
    requires node.Dir? && i < |node.entries|
    requires LoadFrom(path, node, filter, recurse, decode, i, acc) == Success(d)
    ensures Step(path, node.entries[i], filter, recurse, decode, acc) == Success(next)
    ensures LoadFrom(path, node, filter, recurse, decode, i + 1, next) == Success(d)
  {
    next := Step(path, node.entries[i], filter, recurse, decode, acc).value;
  }

  /** A successful pass from entry `i` keeps the name and path of `acc` and
      appends the visible static files, in listing order. */
  lemma {:induction false} LoadFromFiles(path: string, node: Entry, filter: Filter, recurse: bool,
                                         decode: Decoder, i: nat, acc: Directory, d: Directory)
    requires node.Dir? && i <= |node.entries|
    requires LoadFrom(path, node, filter, recurse, decode, i, acc) == Success(d)
    ensures d.name == acc.name && d.path == acc.path
    ensures d.files == acc.files + StaticFiles(path, node.entries[i..])
    decreases |node.entries| - i
  {
    if i < |node.entries| {
      var fi := node.entries[i];
      var next := LoadFromNext(path, node, filter, recurse, decode, i, acc, d);
      StepContents(path, fi, filter, recurse, decode, acc, next);
      LoadFromFiles(path, node, filter, recurse, decode, i + 1, next, d);
      var rest := node.entries[i + 1..];
      assert node.entries[i..][0] == fi && node.entries[i..][1..] == rest;
      assert StaticFiles(path, node.entries[i..]) == StaticFile(path, fi) + StaticFiles(path, rest);
      Texts.AppendAssoc(acc.files, StaticFile(path, fi), StaticFiles(path, rest));
    } else {
      assert node.entries[i..] == [];
    }
  }

  /** A successful pass from entry `i` appends the visible notes that load
      and pass the filter, in listing order. */
  lemma {:induction false} LoadFromNotes(path: string, node: Entry, filter: Filter, recurse: bool,
                                         decode: Decoder, i: nat, acc: Directory, d: Directory)
    requires node.Dir? && i <= |node.entries|
    requires LoadFrom(path, node, filter, recurse, decode, i, acc) == Success(d)
    ensures d.notes == acc.notes + AcceptedNotes(path, node.entries[i..], filter, decode)
    decreases |node.entries| - i
  {
    if i < |node.entries| {
      var fi := node.entries[i];
      var next := LoadFromNext(path, node, filter, recurse, decode, i, acc, d);
      StepContents(path, fi, filter, recurse, decode, acc, next);
      LoadFromNotes(path, node, filter, recurse, decode, i + 1, next, d);
      var rest := node.entries[i + 1..];
      assert node.entries[i..][0] == fi && node.entries[i..][1..] == rest;
      assert AcceptedNotes(path, node.entries[i..], filter, decode) == AcceptedNote(path, fi, filter, decode) + AcceptedNotes(path, rest, filter, decode);
      Texts.AppendAssoc(acc.notes, AcceptedNote(path, fi, filter, decode), AcceptedNotes(path, rest, filter, decode));
    } else {
      assert node.entries[i..] == [];
    }
  }

  /** A pass that succeeds from entry `i` met no broken entry. */
  lemma {:induction false} LoadFromNotBroken(path: string, node: Entry, filter: Filter, recurse: bool,
                                         decode: Decoder, i: nat, acc: Directory, d: Directory)
    requires node.Dir? && i <= |node.entries|
    requires LoadFrom(path, node, filter, recurse, decode, i, acc) == Success(d)
    ensures forall k :: i <= k < |node.entries| ==> !Broken(path, node.entries[k], filter, recurse, decode)
    decreases |node.entries| - i
  {
    if i < |node.entries| {
      var fi := node.entries[i];
      var next := LoadFromNext(path, node, filter, recurse, decode, i, acc, d);
      StepError(path, fi, filter, recurse, decode, acc);
      LoadFromNotBroken(path, node, filter, recurse, decode, i + 1, next, d);
    }
  }

  /** A pass from entry `i` over entries none of which is broken succeeds. */
  lemma {:induction false} LoadFromSucceeds(path: string, node: Entry, filter: Filter, recurse: bool,
                                            decode: Decoder, i: nat, acc: Directory)
    requires node.Dir? && i <= |node.entries|
    requires forall k :: i <= k < |node.entries| ==> !Broken(path, node.entries[k], filter, recurse, decode)
    ensures LoadFrom(path, node, filter, recurse, decode, i, acc).Success?
    decreases |node.entries| - i
  {
    if i < |node.entries| {
      StepError(path, node.entries[i], filter, recurse, decode, acc);
      var next := Step(path, node.entries[i], filter, recurse, decode, acc).value;
      LoadFromSucceeds(path, node, filter, recurse, decode, i + 1, next);
    }
  }

  /** A pass from entry `i` fails with the error of the first broken entry
      at or after `i`. */
  lemma {:induction false} LoadFromFails(path: string, node: Entry, filter: Filter, recurse: bool,
                                         decode: Decoder, i: nat, acc: Directory, k: nat)
    requires node.Dir? && i <= k < |node.entries|
    requires Broken(path, node.entries[k], filter, recurse, decode)
    requires forall j :: i <= j < k ==> !Broken(path, node.entries[j], filter, recurse, decode)
    ensures LoadFrom(path, node, filter, recurse, decode, i, acc)
      == Failure(EntryError(path, node.entries[k], filter, recurse, decode).value)
    decreases k - i
  {
    StepError(path, node.entries[i], filter, recurse, decode, acc);
    if i < k {
      var next := Step(path, node.entries[i], filter, recurse, decode, acc).value;
      LoadFromFails(path, node, filter, recurse, decode, i + 1, next, k);
    }
  }

  /** A successful pass from entry `i` appends, when recursing, exactly the
      loaded non-empty sub-directories from `i` on, and nothing otherwise. */
  lemma {:induction false} LoadFromChilds(path: string, node: Entry, filter: Filter, recurse: bool,
                                          decode: Decoder, i: nat, acc: Directory, d: Directory)
    requires node.Dir? && i <= |node.entries|
    requires LoadFrom(path, node, filter, recurse, decode, i, acc) == Success(d)
    ensures d.childs == acc.childs + (if recurse then LoadedChilds(path, node.entries[i..], filter, decode) else [])
    decreases |node.entries| - i
  {
    if i < |node.entries| {
      var fi := node.entries[i];
      var next := LoadFromNext(path, node, filter, recurse, decode, i, acc, d);
      StepChild(path, fi, filter, recurse, decode, acc, next);
      LoadFromChilds(path, node, filter, recurse, decode, i + 1, next, d);
      var rest := node.entries[i + 1..];
      assert node.entries[i..][0] == fi && node.entries[i..][1..] == rest;
      if recurse {
        assert LoadedChilds(path, node.entries[i..], filter, decode)
          == LoadedChild(path, fi, filter, decode) + LoadedChilds(path, rest, filter, decode);
        Texts.AppendAssoc(acc.childs, LoadedChild(path, fi, filter, decode), LoadedChilds(path, rest, filter, decode));
      } else {
        assert acc.childs + [] == acc.childs;
      }
    } else {
      assert node.entries[i..] == [];
      assert acc.childs + [] == acc.childs;
    }
  }

  /** No loaded child is empty. */
  lemma {:induction false} LoadedChildsNotEmpty(path: string, es: seq<Entry>, filter: Filter, decode: Decoder)
    ensures forall c :: c in LoadedChilds(path, es, filter, decode) ==> !Empty(c)
    decreases |es|
  {
    if es != [] {
      LoadedChildsNotEmpty(path, es[1..], filter, decode);
    }
  }

  /** The static files of two listings one after the other are those of
      the first followed by those of the second. */
  lemma {:induction false} StaticFilesAppend(path: string, a: seq<Entry>, b: seq<Entry>)
    ensures StaticFiles(path, a + b) == StaticFiles(path, a) + StaticFiles(path, b)
    decreases |a|
  {
    if a == [] {
      assert a + b == b;
    } else {
      assert (a + b)[1..] == a[1..] + b;
      StaticFilesAppend(path, a[1..], b);
      Texts.AppendAssoc(StaticFile(path, a[0]), StaticFiles(path, a[1..]), StaticFiles(path, b));
    }
  }

  /** Likewise for the accepted notes. */
  lemma {:induction false} AcceptedNotesAppend(path: string, a: seq<Entry>, b: seq<Entry>, filter: Filter, decode: Decoder)
    ensures AcceptedNotes(path, a + b, filter, decode)
      == AcceptedNotes(path, a, filter, decode) + AcceptedNotes(path, b, filter, decode)
    decreases |a|
  {
    if a == [] {
      assert a + b == b;
    } else {
      assert (a + b)[1..] == a[1..] + b;
      AcceptedNotesAppend(path, a[1..], b, filter, decode);
      Texts.AppendAssoc(AcceptedNote(path, a[0], filter, decode), AcceptedNotes(path, a[1..], filter, decode),
        AcceptedNotes(path, b, filter, decode));
    }
  }

  /** The classification `LoadObsidianDirectory` promises: the name is the
      base of the path; static files, accepted notes and (when recursing)
      loaded non-empty sub-directories come in listing order with hidden
      entries skipped; without recursion there are no children. */
  lemma Classification(path: string, node: Entry, filter: Filter, recurse: bool, decode: Decoder)
    ensures LoadSpec(path, node, filter, recurse, decode).Success? ==>
      var d := LoadSpec(path, node, filter, recurse, decode).value;
      && d.name == Base(path) && d.path == path
      && d.files == StaticFiles(path, node.entries)
      && d.notes == AcceptedNotes(path, node.entries, filter, decode)
      && d.childs == (if recurse then LoadedChilds(path, node.entries, filter, decode) else [])
      && (forall c :: c in d.childs ==> !Empty(c))
  {
    var r := LoadSpec(path, node, filter, recurse, decode);
    if r.Success? {
      var acc := Directory(Base(path), path, [], [], []);
      assert node.entries[0..] == node.entries;
      LoadFromFiles(path, node, filter, recurse, decode, 0, acc, r.value);
      LoadFromNotes(path, node, filter, recurse, decode, 0, acc, r.value);
      LoadFromChilds(path, node, filter, recurse, decode, 0, acc, r.value);
      LoadedChildsNotEmpty(path, node.entries, filter, decode);
      assert [] + LoadedChilds(path, node.entries, filter, decode) == LoadedChilds(path, node.entries, filter, decode);
    }
  }

  /** When the load fails: a directory that cannot be listed fails with
      the read error; otherwise the load fails exactly when some entry is
      broken, and then with the error of the first broken entry. */
  lemma LoadErrors(path: string, node: Entry, filter: Filter, recurse: bool, decode: Decoder)
    ensures !node.Dir? || !node.listable ==> LoadSpec(path, node, filter, recurse, decode) == Failure(ReadError(path))
    ensures node.Dir? && node.listable ==>
      (LoadSpec(path, node, filter, recurse, decode).Failure? <==>
         exists k :: 0 <= k < |node.entries| && Broken(path, node.entries[k], filter, recurse, decode))
    ensures node.Dir? && node.listable ==>
      forall k: nat :: FirstBroken(path, node.entries, k, filter, recurse, decode) ==>
        LoadSpec(path, node, filter, recurse, decode)
          == Failure(EntryError(path, node.entries[k], filter, recurse, decode).value)
  {
    if node.Dir? && node.listable {
      var acc := Directory(Base(path), path, [], [], []);
      var r := LoadSpec(path, node, filter, recurse, decode);
      assert r == LoadFrom(path, node, filter, recurse, decode, 0, acc);
      if r.Success? {
        LoadFromNotBroken(path, node, filter, recurse, decode, 0, acc, r.value);
      } else if forall k :: 0 <= k < |node.entries| ==> !Broken(path, node.entries[k], filter, recurse, decode) {
        LoadFromSucceeds(path, node, filter, recurse, decode, 0, acc);
      }
      forall k: nat | FirstBroken(path, node.entries, k, filter, recurse, decode)
        ensures r == Failure(EntryError(path, node.entries[k], filter, recurse, decode).value)
      {
        LoadFromFails(path, node, filter, recurse, decode, 0, acc, k);
      }
    }
  }
}
