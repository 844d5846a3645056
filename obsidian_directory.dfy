/** pkg/obsidian.go, the directory half: the loaded directory tree, its
    emptiness test and the link map built by a depth-first walk. */
module ObsidianDirectory {
  import opened Paths
  import opened Maps
  import opened ObsidianNote

  /** `ObsidianDirectory`. The `Parent` back-pointer is left out: nothing in
      the converter follows it. */
  datatype Directory = Directory(
    name: string, path: string, childs: seq<Directory>, notes: seq<Note>, files: seq<string>)

  /** `Empty`: no children, no static files, no notes. */
  predicate Empty(d: Directory)
  {
    |d.childs| == 0 && |d.files| == 0 && |d.notes| == 0
  }

  /** A note together with the converted path of its directory below the
      root, as `linkMap` passes it down in `prefix`. */
  datatype Placement = Placement(note: Note, dir: string)

  /** The notes of the tree in the order `linkMap` visits them: a
      directory's own notes first, then each child's, depth first. */
  function Placements(d: Directory, convert: string -> string, prefix: string): seq<Placement>
    decreases d, 1, 0
  {
    Local(d.notes, prefix) + ChildPlacements(d, convert, prefix, |d.childs|)
  }

  function Local(notes: seq<Note>, prefix: string): seq<Placement>
  {
    seq(|notes|, i requires 0 <= i < |notes| => Placement(notes[i], prefix))
  }

  /** The placements of the first `n` children, each below its converted name. */
  function ChildPlacements(d: Directory, convert: string -> string, prefix: string, n: nat): seq<Placement>
    requires n <= |d.childs|
    decreases d, 0, n
  {
    if n == 0 then []
    else
      var sub := d.childs[n - 1];
      ChildPlacements(d, convert, prefix, n - 1) + Placements(sub, convert, ChildRel(convert, prefix, sub))
  }

  /** The converted path of child `c` below its parent's path `rel`. */
  function ChildRel(convert: string -> string, rel: string, c: Directory): string
  {
    Join(rel, convert(c.name))
  }

  /** Where a placed note's pages live below the content root, as a link:
      `path.Join(prefix, convert(title)) + "/"`. */
  function LinkTarget(convert: string -> string, p: Placement): string
  {
    Join(p.dir, convert(p.note.title)) + "/"
  }

  /** The assignments `linkMap` performs, in order. */
  function LinkEntries(ps: seq<Placement>, convert: string -> string): seq<(string, string)>
  {
    seq(|ps|, i requires 0 <= i < |ps| => (ps[i].note.title, LinkTarget(convert, ps[i])))
  }

  /** `LinkMap`, reference definition. */
  function LinkMapOf(d: Directory, convert: string -> string): map<string, string>
  {
    Assign(map[], LinkEntries(Placements(d, convert, ""), convert))
  }

  lemma LinkEntriesAppend(a: seq<Placement>, b: seq<Placement>, convert: string -> string)
    ensures LinkEntries(a + b, convert) == LinkEntries(a, convert) + LinkEntries(b, convert)
  {
  }

  lemma LocalStep(local: seq<Placement>, i: nat, convert: string -> string)
    requires i < |local|
    ensures LinkEntries(local[..i + 1], convert)
      == LinkEntries(local[..i], convert) + [(local[i].note.title, LinkTarget(convert, local[i]))]
  {
    assert local[..i + 1] == local[..i] + [local[i]];
    LinkEntriesAppend(local[..i], [local[i]], convert);
  }

  lemma ChildStep(d: Directory, convert: string -> string, prefix: string, local: seq<Placement>,
                  j: nat, to: map<string, string>, before: map<string, string>, after: map<string, string>)
    requires j < |d.childs|
    requires before == Assign(to, LinkEntries(local + ChildPlacements(d, convert, prefix, j), convert))
    requires after == Assign(before,
      LinkEntries(Placements(d.childs[j], convert, ChildRel(convert, prefix, d.childs[j])), convert))
    ensures after == Assign(to, LinkEntries(local + ChildPlacements(d, convert, prefix, j + 1), convert))
  {
    var sub := d.childs[j];
    var done := local + ChildPlacements(d, convert, prefix, j);
    var visited := Placements(sub, convert, ChildRel(convert, prefix, sub));
    AssignEntriesAppend(done, visited, convert, to);
    ChildPlacementsStep(d, convert, prefix, local, j);
  }

  lemma ChildPlacementsStep(d: Directory, convert: string -> string, prefix: string,
                            local: seq<Placement>, j: nat)
    requires j < |d.childs|
    ensures var sub := d.childs[j];
      local + ChildPlacements(d, convert, prefix, j) + Placements(sub, convert, ChildRel(convert, prefix, sub))
      == local + ChildPlacements(d, convert, prefix, j + 1)
  {
  }

  lemma AssignEntriesAppend(a: seq<Placement>, b: seq<Placement>, convert: string -> string,
                            to: map<string, string>)
    ensures Assign(Assign(to, LinkEntries(a, convert)), LinkEntries(b, convert))
      == Assign(to, LinkEntries(a + b, convert))
  {
    AssignAppend(to, LinkEntries(a, convert), LinkEntries(b, convert));
    LinkEntriesAppend(a, b, convert);
  }

  /** `linkMap`: the notes of this directory are written into `to`, then
      every child is walked with its converted name appended to the prefix. */
  method FillLinkMap(d: Directory, convert: string -> string, to: map<string, string>, prefix: string)
    returns (r: map<string, string>)
    ensures r == Assign(to, LinkEntries(Placements(d, convert, prefix), convert))
    decreases d, 1
  {
    var local := Local(d.notes, prefix);
    r := FillNotes(d.notes, convert, to, prefix);
    assert local + ChildPlacements(d, convert, prefix, 0) == local by {
      assert ChildPlacements(d, convert, prefix, 0) == [];
    }
    var j := 0;
    while j < |d.childs|
      invariant 0 <= j <= |d.childs|
      invariant r == Filled(d, convert, to, prefix, local, j)
    {
      r := FillChild(d, convert, to, prefix, local, j, r);
      j := j + 1;
    }
  }

  /** What the link map holds once the notes of this directory and its
      first `j` children have been written. */
  function Filled(d: Directory, convert: string -> string, to: map<string, string>, prefix: string,
                  local: seq<Placement>, j: nat): map<string, string>
    requires j <= |d.childs|
  {
    Assign(to, LinkEntries(local + ChildPlacements(d, convert, prefix, j), convert))
  }

  /** One turn of the loop over the children: the child is walked with its
      converted name appended to the prefix. */
  method FillChild(d: Directory, convert: string -> string, to: map<string, string>, prefix: string,
                   local: seq<Placement>, j: nat, r: map<string, string>)
    returns (r': map<string, string>)
    requires j < |d.childs|
    requires r == Filled(d, convert, to, prefix, local, j)
    ensures r' == Filled(d, convert, to, prefix, local, j + 1)
    decreases d, 0
  {
    var sub := d.childs[j];
    r' := FillLinkMap(sub, convert, r, ChildRel(convert, prefix, sub));
    ChildStep(d, convert, prefix, local, j, to, r, r');
  }

  /** The loop of `linkMap` over the directory's own notes: each title is
      mapped to its converted path below the prefix. */
  method FillNotes(notes: seq<Note>, convert: string -> string, to: map<string, string>, prefix: string)
    returns (r: map<string, string>)
    ensures r == Assign(to, LinkEntries(Local(notes, prefix), convert))
  {
    var local := Local(notes, prefix);
    r := to;
    var i := 0;
    while i < |notes|
      invariant 0 <= i <= |notes|
      invariant r == Assign(to, LinkEntries(local[..i], convert))
    {
      var note := notes[i];
      var target := Join(prefix, convert(note.title));
      LocalStep(local, i, convert);
      AssignSnoc(to, LinkEntries(local[..i], convert), note.title, target + "/");
      r := r[note.title := target + "/"];
      i := i + 1;
    }
    assert local[..i] == local;
  }

  /** `LinkMap`: a fresh map filled from the root with an empty prefix. */
  method LinkMap(d: Directory, convert: string -> string) returns (to: map<string, string>)
    ensures to == LinkMapOf(d, convert)
  {
    to := FillLinkMap(d, convert, map[], "");
  }

  /** Every note title of the tree, as an independent reference. */
  function Titles(d: Directory): set<string>
    decreases d
  {
    (set n | n in d.notes :: n.title) + SubTitles(d.childs)
  }

  /** The note titles of a list of trees. */
  function SubTitles(cs: seq<Directory>): set<string>
    decreases cs
  {
    if cs == [] then {} else Titles(cs[0]) + SubTitles(cs[1..])
  }

  lemma {:induction false} SubTitlesSnoc(cs: seq<Directory>, c: Directory)
    ensures SubTitles(cs + [c]) == SubTitles(cs) + Titles(c)
    decreases |cs|
  {
    if cs == [] {
      assert cs + [c] == [c];
      assert [c][1..] == [];
    } else {
      assert (cs + [c])[1..] == cs[1..] + [c];
      SubTitlesSnoc(cs[1..], c);
    }
  }

  function PlacedTitles(ps: seq<Placement>): set<string>
  {
    set i | 0 <= i < |ps| :: ps[i].note.title
  }

  lemma PlacedTitlesAppend(a: seq<Placement>, b: seq<Placement>)
    ensures PlacedTitles(a + b) == PlacedTitles(a) + PlacedTitles(b)
  {
    forall t | t in PlacedTitles(a + b) ensures t in PlacedTitles(a) + PlacedTitles(b) {
      var i :| 0 <= i < |a + b| && (a + b)[i].note.title == t;
      if i >= |a| {
        assert (a + b)[i] == b[i - |a|];
      }
    }
    forall t | t in PlacedTitles(a) ensures t in PlacedTitles(a + b) {
      var i :| 0 <= i < |a| && a[i].note.title == t;
      assert (a + b)[i] == a[i];
    }
    forall t | t in PlacedTitles(b) ensures t in PlacedTitles(a + b) {
      var i :| 0 <= i < |b| && b[i].note.title == t;
      assert (a + b)[|a| + i] == b[i];
    }
  }

  lemma LocalTitles(notes: seq<Note>, prefix: string)
    ensures PlacedTitles(Local(notes, prefix)) == (set n | n in notes :: n.title)
  {
    var local := Local(notes, prefix);
    forall t | t in (set n | n in notes :: n.title) ensures t in PlacedTitles(local) {
      var n :| n in notes && n.title == t;
      var i :| 0 <= i < |notes| && notes[i] == n;
      assert local[i].note == n;
    }
  }

  /** The walk visits exactly the notes of the tree, whatever the names and
      the prefix. */
  lemma {:induction false} PlacementTitles(d: Directory, convert: string -> string, prefix: string)
    ensures PlacedTitles(Placements(d, convert, prefix)) == Titles(d)
    decreases d, 1
  {
    var local := Local(d.notes, prefix);
    LocalTitles(d.notes, prefix);
    ChildTitles(d, convert, prefix, |d.childs|);
    assert d.childs[..|d.childs|] == d.childs;
    PlacedTitlesAppend(local, ChildPlacements(d, convert, prefix, |d.childs|));
  }

  lemma {:induction false} ChildTitles(d: Directory, convert: string -> string, prefix: string, n: nat)
    requires n <= |d.childs|
    ensures PlacedTitles(ChildPlacements(d, convert, prefix, n)) == SubTitles(d.childs[..n])
    decreases d, 0, n
  {
    if n > 0 {
      var sub := d.childs[n - 1];
      var before := ChildPlacements(d, convert, prefix, n - 1);
      var visited := Placements(sub, convert, ChildRel(convert, prefix, sub));
      assert ChildPlacements(d, convert, prefix, n) == before + visited;
      ChildTitles(d, convert, prefix, n - 1);
      PlacementTitles(sub, convert, ChildRel(convert, prefix, sub));
      assert d.childs[..n] == d.childs[..n - 1] + [sub];
      TitlesStep(before, visited, d.childs[..n - 1], sub);
    } else {
      assert d.childs[..n] == [];
    }
  }

  lemma TitlesStep(before: seq<Placement>, visited: seq<Placement>, cs: seq<Directory>, sub: Directory)
    requires PlacedTitles(before) == SubTitles(cs) && PlacedTitles(visited) == Titles(sub)
    ensures PlacedTitles(before + visited) == SubTitles(cs + [sub])
  {
    PlacedTitlesAppend(before, visited);
    SubTitlesSnoc(cs, sub);
  }

  /** The keys of the link map are exactly the note titles of the tree; an
      empty directory gives an empty map. */
  lemma LinkMapKeys(d: Directory, convert: string -> string)
    ensures LinkMapOf(d, convert).Keys == Titles(d)
    ensures Empty(d) ==> LinkMapOf(d, convert) == map[]
  {
    var ps := Placements(d, convert, "");
    AssignKeys(map[], LinkEntries(ps, convert));
    assert KeysOf(LinkEntries(ps, convert)) == PlacedTitles(ps) by {
      forall t | t in PlacedTitles(ps) ensures t in KeysOf(LinkEntries(ps, convert)) {
        var i :| 0 <= i < |ps| && ps[i].note.title == t;
        assert LinkEntries(ps, convert)[i].0 == t;
      }
    }
    PlacementTitles(d, convert, "");
    assert d.childs[..|d.childs|] == d.childs;
  }

  /** On duplicate titles the note visited last wins; every value is the
      converted path of that note's directory and title, with a trailing
      slash. */
  lemma LinkMapLastWins(d: Directory, convert: string -> string, i: nat)
    requires i < |Placements(d, convert, "")|
    requires forall j :: i < j < |Placements(d, convert, "")| ==>
      Placements(d, convert, "")[j].note.title != Placements(d, convert, "")[i].note.title
    ensures var p := Placements(d, convert, "")[i];
      p.note.title in LinkMapOf(d, convert)
      && LinkMapOf(d, convert)[p.note.title] == Join(p.dir, convert(p.note.title)) + "/"
  {
    var ps := Placements(d, convert, "");
    AssignLastWins(map[], LinkEntries(ps, convert), i);
  }

  /** A flat directory maps each note title to its converted title plus
      "/", the later note winning on equal titles. */
  lemma LinkMapFlat(d: Directory, convert: string -> string, a: Note, b: Note)
    requires d.childs == [] && d.notes == [a, b]
    ensures LinkMapOf(d, convert) == map[a.title := convert(a.title) + "/"][b.title := convert(b.title) + "/"]
  {
    var ps := Placements(d, convert, "");
    assert ChildPlacements(d, convert, "", 0) == [];
    assert Local(d.notes, "") == [Placement(a, ""), Placement(b, "")];
    assert ps == [Placement(a, ""), Placement(b, "")];
    var es := LinkEntries(ps, convert);
    assert es == [(a.title, convert(a.title) + "/")] + [(b.title, convert(b.title) + "/")];
    AssignSnoc(map[], [(a.title, convert(a.title) + "/")], b.title, convert(b.title) + "/");
    assert Assign(map[], [(a.title, convert(a.title) + "/")]) == map[a.title := convert(a.title) + "/"] by {
      AssignSnoc(map[], [], a.title, convert(a.title) + "/");
    }
  }

  /** A note of a sub-directory is linked below the converted name of that
      sub-directory, after the notes of its parent. */
  lemma LinkMapLeveled(d: Directory, convert: string -> string, a: Note, c: Directory, b: Note)
    requires d.notes == [a] && d.childs == [c]
    requires c.notes == [b] && c.childs == []
    ensures LinkMapOf(d, convert)
      == map[a.title := convert(a.title) + "/"][b.title := Join(convert(c.name), convert(b.title)) + "/"]
  {
    var sub := Placements(c, convert, convert(c.name));
    assert ChildPlacements(c, convert, convert(c.name), 0) == [];
    assert Local(c.notes, convert(c.name)) == [Placement(b, convert(c.name))];
    assert sub == [Placement(b, convert(c.name))];
    assert ChildRel(convert, "", c) == convert(c.name);
    assert ChildPlacements(d, convert, "", 0) == [];
    assert ChildPlacements(d, convert, "", 1) == [] + sub;
    assert Local(d.notes, "") == [Placement(a, "")];
    var ps := Placements(d, convert, "");
    assert ps == [Placement(a, ""), Placement(b, convert(c.name))];
    var ea := (a.title, convert(a.title) + "/");
    var eb := (b.title, Join(convert(c.name), convert(b.title)) + "/");
    assert LinkEntries(ps, convert) == [ea] + [eb];
    AssignSnoc(map[], [ea], eb.0, eb.1);
    assert Assign(map[], [ea]) == map[ea.0 := ea.1] by {
      AssignSnoc(map[], [], ea.0, ea.1);
    }
  }
}
