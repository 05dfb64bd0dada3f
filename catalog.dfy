/**
 * The tree of game and folder entries of one system and findOrCreateFile
 * (src/XMLReader.cpp:51-118).  The tree is an arena: a sequence of entries
 * whose children are indices into the same sequence; entry 0 is the
 * system's root folder.
 */
module Catalog {
  import opened Options
  import opened Paths

  datatype FileType = Game | Folder

  /**
   * A FileData: its kind, its path, its metadata (a key absent from the map
   * holds its declared default value) and its children, in insertion order.
   */
  datatype Entry = Entry(kind: FileType, path: Path, metadata: map<string, string>, children: seq<nat>)

  /** A FileData as its constructor leaves it: no children, named after its file. */
  function NewEntry(kind: FileType, path: Path): Entry
  {
    Entry(kind, path, map["name" := CleanFileName(path)], [])
  }

  /** The arena holds the root and every child index names an entry of it. */
  predicate ValidArena(nodes: seq<Entry>)
  {
    |nodes| > 0 &&
    forall i, k :: 0 <= i < |nodes| && 0 <= k < |nodes[i].children| ==> nodes[i].children[k] < |nodes|
  }

  /**
   * `b` grew from `a` by appending entries and appending children: no entry
   * was removed, no kind or path changed, and every old child list is a
   * prefix of the new one.
   */
  predicate Extends(a: seq<Entry>, b: seq<Entry>)
  {
    |a| <= |b| &&
    forall i :: 0 <= i < |a| ==>
      b[i].kind == a[i].kind && b[i].path == a[i].path && a[i].children <= b[i].children
  }

  /** The metadata of the entries of `a` is the same in `b`. */
  predicate SameMetadata(a: seq<Entry>, b: seq<Entry>)
  {
    |a| <= |b| && forall i :: 0 <= i < |a| ==> b[i].metadata == a[i].metadata
  }

  /** No two children of one entry share a file name. */
  predicate UniqueNames(nodes: seq<Entry>)
    requires ValidArena(nodes)
  {
    forall i, j, k :: 0 <= i < |nodes| && 0 <= j < k < |nodes[i].children| ==>
      Filename(nodes[nodes[i].children[j]].path) != Filename(nodes[nodes[i].children[k]].path)
  }

  lemma ExtendsTransitive(a: seq<Entry>, b: seq<Entry>, c: seq<Entry>)
    requires Extends(a, b) && Extends(b, c)
    ensures Extends(a, c)
  {
    forall i | 0 <= i < |a|
      ensures a[i].children <= c[i].children
    {
      assert a[i].children <= b[i].children <= c[i].children;
    }
  }

  lemma SameMetadataTransitive(a: seq<Entry>, b: seq<Entry>, c: seq<Entry>)
    requires SameMetadata(a, b) && SameMetadata(b, c)
    ensures SameMetadata(a, c)
  {
  }

  /** FileData::addChild: appends `e` to the arena and as the last child of `parent`. */
  function AddChild(nodes: seq<Entry>, parent: nat, e: Entry): (r: seq<Entry>)
    requires ValidArena(nodes) && parent < |nodes| && e.children == []
    ensures ValidArena(r) && Extends(nodes, r) && SameMetadata(nodes, r)
    ensures |r| == |nodes| + 1 && r[|nodes|] == e
    ensures r[parent].children == nodes[parent].children + [|nodes|]
    ensures forall i :: 0 <= i < |nodes| && i != parent ==> r[i] == nodes[i]
  {
    nodes[parent := nodes[parent].(children := nodes[parent].children + [|nodes|])] + [e]
  }

  /** The first of `kids` whose file name is `name`. */
  function FirstNamed(nodes: seq<Entry>, kids: seq<nat>, name: string): (r: Option<nat>)
    requires forall k :: 0 <= k < |kids| ==> kids[k] < |nodes|
    ensures r.Some? ==> r.value in kids && r.value < |nodes| && Filename(nodes[r.value].path) == name
    ensures r.None? ==> forall k :: 0 <= k < |kids| ==> Filename(nodes[kids[k]].path) != name
  {
    if kids == [] then None
    else if Filename(nodes[kids[0]].path) == name then Some(kids[0])
    else FirstNamed(nodes, kids[1..], name)
  }

  /** FirstNamed picks the earliest of `kids` with the name. */
  lemma {:induction false} FirstNamedIsFirst(nodes: seq<Entry>, kids: seq<nat>, name: string)
    requires forall k :: 0 <= k < |kids| ==> kids[k] < |nodes|
    ensures FirstNamed(nodes, kids, name).Some? ==>
      exists k :: 0 <= k < |kids| && kids[k] == FirstNamed(nodes, kids, name).value &&
        forall j :: 0 <= j < k ==> Filename(nodes[kids[j]].path) != name
  {
    if kids != [] && Filename(nodes[kids[0]].path) != name {
      var rest := kids[1..];
      FirstNamedIsFirst(nodes, rest, name);
      if FirstNamed(nodes, rest, name).Some? {
        var k :| 0 <= k < |rest| && rest[k] == FirstNamed(nodes, rest, name).value &&
          forall j :: 0 <= j < k ==> Filename(nodes[rest[j]].path) != name;
        assert kids[k + 1] == rest[k];
        assert forall j :: 0 <= j < k + 1 ==> Filename(nodes[kids[j]].path) != name by {
          forall j | 0 <= j < k + 1
            ensures Filename(nodes[kids[j]].path) != name
          {
            if j > 0 {
              assert kids[j] == rest[j - 1];
            }
          }
        }
      }
    }
  }

  /** The first child of `cur` whose file name is `name` (src/XMLReader.cpp:71-79). */
  function ChildNamed(nodes: seq<Entry>, cur: nat, name: string): Option<nat>
    requires ValidArena(nodes) && cur < |nodes|
  {
    FirstNamed(nodes, nodes[cur].children, name)
  }

  /** What findOrCreateFile leaves: the tree and the entry it returns (None for NULL). */
  datatype Outcome = Outcome(nodes: seq<Entry>, file: Option<nat>)

  /**
   * The walk of findOrCreateFile from entry `cur` over the remaining
   * relative names `rel`: one tree level per name.  The last name returns the
   * matching child, or (GAME only) a new entry for `path`; a missing
   * intermediate folder is created (GAME only) with the path
   * stem(parent's path) / name.  FOLDER requests never create anything.
   */
  function Descend(nodes: seq<Entry>, cur: nat, rel: seq<string>, path: Path, kind: FileType): (r: Outcome)
    requires ValidArena(nodes) && cur < |nodes|
    ensures ValidArena(r.nodes) && Extends(nodes, r.nodes)
    ensures r.file.Some? ==> r.file.value < |r.nodes|
    ensures r.file.None? ==> r.nodes == nodes
    ensures kind == Folder ==> r.nodes == nodes
    decreases |rel|
  {
    if rel == [] then Outcome(nodes, None)
    else
      match ChildNamed(nodes, cur, rel[0])
      case Some(child) =>
        if |rel| == 1 then Outcome(nodes, Some(child))
        else Descend(nodes, child, rel[1..], path, kind)
      case None =>
        if kind == Folder then Outcome(nodes, None)
        else if |rel| == 1 then Outcome(AddChild(nodes, cur, NewEntry(kind, path)), Some(|nodes|))
        else
          var folder := NewEntry(Folder, Join(Stem(nodes[cur].path), rel[0]));
          var n1 := AddChild(nodes, cur, folder);
          var r := Descend(n1, |nodes|, rel[1..], path, kind);
          ExtendsTransitive(nodes, n1, r.nodes);
          r
  }

  /** The walk adds at most one entry per name, and a GAME walk with names left always yields an entry. */
  lemma {:induction false} DescendBounds(nodes: seq<Entry>, cur: nat, rel: seq<string>, path: Path, kind: FileType)
    requires ValidArena(nodes) && cur < |nodes|
    ensures |Descend(nodes, cur, rel, path, kind).nodes| <= |nodes| + |rel|
    ensures kind == Game && rel != [] ==> Descend(nodes, cur, rel, path, kind).file.Some?
    decreases |rel|
  {
    if rel != [] {
      match ChildNamed(nodes, cur, rel[0])
      case Some(child) =>
        if |rel| > 1 {
          DescendBounds(nodes, child, rel[1..], path, kind);
        }
      case None =>
        if kind == Game && |rel| > 1 {
          var n1 := AddChild(nodes, cur, NewEntry(Folder, Join(Stem(nodes[cur].path), rel[0])));
          DescendBounds(n1, |nodes|, rel[1..], path, kind);
        }
    }
  }

  /** The walk changes no metadata. */
  lemma {:induction false} DescendKeepsMetadata(nodes: seq<Entry>, cur: nat, rel: seq<string>, path: Path, kind: FileType)
    requires ValidArena(nodes) && cur < |nodes|
    ensures SameMetadata(nodes, Descend(nodes, cur, rel, path, kind).nodes)
    decreases |rel|
  {
    if rel != [] {
      match ChildNamed(nodes, cur, rel[0])
      case Some(child) =>
        if |rel| > 1 {
          DescendKeepsMetadata(nodes, child, rel[1..], path, kind);
        }
      case None =>
        if kind == Game && |rel| > 1 {
          var n1 := AddChild(nodes, cur, NewEntry(Folder, Join(Stem(nodes[cur].path), rel[0])));
          DescendKeepsMetadata(n1, |nodes|, rel[1..], path, kind);
          SameMetadataTransitive(nodes, n1, Descend(n1, |nodes|, rel[1..], path, kind).nodes);
        }
    }
  }

  /** When `r` holds more entries than `nodes`, its result is the last entry, a fresh entry for `path`. */
  predicate Grows(nodes: seq<Entry>, r: Outcome, path: Path, kind: FileType)
  {
    |r.nodes| > |nodes| ==> r.file == Some(|r.nodes| - 1) && r.nodes[|r.nodes| - 1] == NewEntry(kind, path)
  }

  /** When the walk creates anything, its result is the last entry, a fresh entry for `path`. */
  lemma {:induction false} DescendResult(nodes: seq<Entry>, cur: nat, rel: seq<string>, path: Path, kind: FileType)
    requires ValidArena(nodes) && cur < |nodes|
    ensures Grows(nodes, Descend(nodes, cur, rel, path, kind), path, kind)
    decreases |rel|
  {
    if rel == [] || kind == Folder {
      return;
    }
    match ChildNamed(nodes, cur, rel[0])
    case Some(child) =>
      if |rel| > 1 {
        DescendResult(nodes, child, rel[1..], path, kind);
      }
    case None =>
      if |rel| > 1 {
        var n1 := AddChild(nodes, cur, NewEntry(Folder, Join(Stem(nodes[cur].path), rel[0])));
        FreshEntryGrows(n1, |nodes|, rel[1..], path);
        DescendResult(n1, |nodes|, rel[1..], path, kind);
      }
  }

  /** A GAME walk from an entry without children creates at least one entry. */
  lemma FreshEntryGrows(nodes: seq<Entry>, cur: nat, rel: seq<string>, path: Path)
    requires ValidArena(nodes) && cur < |nodes| && nodes[cur].children == [] && rel != []
    ensures |Descend(nodes, cur, rel, path, Game).nodes| > |nodes|
  {
    assert ChildNamed(nodes, cur, rel[0]).None?;
    if |rel| > 1 {
      var n1 := AddChild(nodes, cur, NewEntry(Folder, Join(Stem(nodes[cur].path), rel[0])));
      assert Descend(nodes, cur, rel, path, Game) == Descend(n1, |nodes|, rel[1..], path, Game);
    }
  }

  /**
   * findOrCreateFile: NULL (and no change) for a path outside the system
   * root, otherwise the walk from the root over the relative names.
   */
  function FindOrCreate(nodes: seq<Entry>, path: Path, kind: FileType): (r: Outcome)
    requires ValidArena(nodes)
    ensures ValidArena(r.nodes) && Extends(nodes, r.nodes)
    ensures r.file.Some? ==> r.file.value < |r.nodes|
    ensures r.file.None? ==> r.nodes == nodes
    ensures kind == Folder ==> r.nodes == nodes
  {
    match Relative(path, nodes[0].path)
    case None => Outcome(nodes, None)
    case Some(rel) => Descend(nodes, 0, rel, path, kind)
  }

  // ----- properties of findOrCreateFile

  /**
   * findOrCreateFile changes no metadata, and when it adds entries the entry
   * it returns is the last one, a fresh GAME entry for the requested path.
   */
  lemma FindOrCreateFreshResult(nodes: seq<Entry>, path: Path, kind: FileType)
    requires ValidArena(nodes)
    ensures SameMetadata(nodes, FindOrCreate(nodes, path, kind).nodes)
    ensures Grows(nodes, FindOrCreate(nodes, path, kind), path, Game)
  {
    match Relative(path, nodes[0].path)
    case None =>
    case Some(rel) =>
      DescendKeepsMetadata(nodes, 0, rel, path, kind);
      DescendResult(nodes, 0, rel, path, kind);
  }

  /**
   * NULL without change for a path outside the root and for the root itself
   * (the relative path is empty and the walk never starts).
   */
  lemma FindOrCreateNullCases(nodes: seq<Entry>, path: Path, kind: FileType)
    requires ValidArena(nodes)
    ensures Relative(path, nodes[0].path).None? ==> FindOrCreate(nodes, path, kind) == Outcome(nodes, None)
    ensures FindOrCreate(nodes, nodes[0].path, kind) == Outcome(nodes, None)
  {
    RelativeToSelf(nodes[0].path);
  }

  /**
   * A GAME request for a path strictly inside the root always yields an
   * entry, and adds at most one entry per relative name.
   */
  lemma FindOrCreateGameSucceeds(nodes: seq<Entry>, path: Path)
    requires ValidArena(nodes)
    requires Relative(path, nodes[0].path).Some? && Relative(path, nodes[0].path).value != []
    ensures FindOrCreate(nodes, path, Game).file.Some?
    ensures |FindOrCreate(nodes, path, Game).nodes| <= |nodes| + |Relative(path, nodes[0].path).value|
  {
    DescendBounds(nodes, 0, Relative(path, nodes[0].path).value, path, Game);
  }

  /**
   * A FOLDER request never adds an entry: it returns an existing entry whose
   * file name is the last relative name, or NULL.
   */
  lemma FindOrCreateFolderOnlyFinds(nodes: seq<Entry>, path: Path)
    requires ValidArena(nodes)
    ensures var r := FindOrCreate(nodes, path, Folder);
      r.nodes == nodes &&
      (r.file.Some? ==>
        (r.file.value < |nodes| && Relative(path, nodes[0].path).Some? &&
         var rel := Relative(path, nodes[0].path).value;
         rel != [] && Filename(nodes[r.file.value].path) == rel[|rel| - 1]))
  {
    match Relative(path, nodes[0].path)
    case None =>
    case Some(rel) => DescendFolderFinds(nodes, 0, rel, path);
  }

  lemma {:induction false} DescendFolderFinds(nodes: seq<Entry>, cur: nat, rel: seq<string>, path: Path)
    requires ValidArena(nodes) && cur < |nodes|
    ensures var r := Descend(nodes, cur, rel, path, Folder);
      r.file.Some? ==> rel != [] && Filename(nodes[r.file.value].path) == rel[|rel| - 1]
    decreases |rel|
  {
    if rel != [] {
      match ChildNamed(nodes, cur, rel[0])
      case Some(child) =>
        if |rel| > 1 {
          DescendFolderFinds(nodes, child, rel[1..], path);
        }
      case None =>
    }
  }

  /** A walk that adds no entry leaves the tree exactly as it was. */
  lemma {:induction false} DescendNoGrowthUnchanged(nodes: seq<Entry>, cur: nat, rel: seq<string>, path: Path, kind: FileType)
    requires ValidArena(nodes) && cur < |nodes|
    ensures var r := Descend(nodes, cur, rel, path, kind);
      |r.nodes| == |nodes| ==> r.nodes == nodes
    decreases |rel|
  {
    if rel != [] {
      match ChildNamed(nodes, cur, rel[0])
      case Some(child) =>
        if |rel| > 1 {
          DescendNoGrowthUnchanged(nodes, child, rel[1..], path, kind);
        }
      case None =>
    }
  }

  /**
   * A FOLDER walk is the GAME walk that creates nothing: it finds exactly
   * the entry the GAME walk finds among the existing ones, and it is NULL
   * exactly where the GAME walk would have to create an entry.
   */
  lemma {:induction false} DescendFolderIsGame(nodes: seq<Entry>, cur: nat, rel: seq<string>, path: Path)
    requires ValidArena(nodes) && cur < |nodes|
    ensures var g := Descend(nodes, cur, rel, path, Game);
      Descend(nodes, cur, rel, path, Folder) == (if g.nodes == nodes then g else Outcome(nodes, None))
    decreases |rel|
  {
    if rel != [] {
      match ChildNamed(nodes, cur, rel[0])
      case Some(child) =>
        if |rel| > 1 {
          DescendFolderIsGame(nodes, child, rel[1..], path);
        }
      case None =>
        if |rel| > 1 {
          var n1 := AddChild(nodes, cur, NewEntry(Folder, Join(Stem(nodes[cur].path), rel[0])));
          assert |Descend(n1, |nodes|, rel[1..], path, Game).nodes| >= |n1|;
        }
    }
  }

  /** findOrCreateFile adds no entry only when it leaves the tree unchanged. */
  lemma FindOrCreateNoGrowthUnchanged(nodes: seq<Entry>, path: Path, kind: FileType)
    requires ValidArena(nodes)
    ensures var r := FindOrCreate(nodes, path, kind);
      |r.nodes| == |nodes| ==> r.nodes == nodes
  {
    match Relative(path, nodes[0].path)
    case None =>
    case Some(rel) => DescendNoGrowthUnchanged(nodes, 0, rel, path, kind);
  }

  /**
   * A FOLDER request answers what a GAME request for the same path would
   * answer without creating anything: the same existing entry, or NULL
   * where the GAME request would add entries.
   */
  lemma FolderIsGameWithoutCreation(nodes: seq<Entry>, path: Path)
    requires ValidArena(nodes)
    ensures var g := FindOrCreate(nodes, path, Game);
      FindOrCreate(nodes, path, Folder) == (if g.nodes == nodes then g else Outcome(nodes, None))
  {
    match Relative(path, nodes[0].path)
    case None =>
    case Some(rel) => DescendFolderIsGame(nodes, 0, rel, path);
  }

  lemma {:induction false} FirstNamedStable(a: seq<Entry>, b: seq<Entry>, kids: seq<nat>, kids2: seq<nat>, name: string)
    requires forall k :: 0 <= k < |kids| ==> kids[k] < |a|
    requires forall k :: 0 <= k < |kids2| ==> kids2[k] < |b|
    requires kids <= kids2 && Extends(a, b)
    requires FirstNamed(a, kids, name).Some?
    ensures FirstNamed(b, kids2, name) == FirstNamed(a, kids, name)
  {
    assert kids2[0] == kids[0];
    if Filename(a[kids[0]].path) != name {
      FirstNamedStable(a, b, kids[1..], kids2[1..], name);
    }
  }

  lemma {:induction false} FirstNamedAppend(a: seq<Entry>, b: seq<Entry>, kids: seq<nat>, x: nat, name: string)
    requires forall k :: 0 <= k < |kids| ==> kids[k] < |a|
    requires Extends(a, b) && x < |b|
    requires FirstNamed(a, kids, name).None?
    requires Filename(b[x].path) == name
    ensures FirstNamed(b, kids + [x], name) == Some(x)
  {
    if kids != [] {
      assert (kids + [x])[1..] == kids[1..] + [x];
      FirstNamedAppend(a, b, kids[1..], x, name);
    }
  }

  /** The child found (or made) for `name` is found again in any later tree. */
  lemma ChildNamedStable(a: seq<Entry>, b: seq<Entry>, cur: nat, name: string, v: nat)
    requires ValidArena(a) && ValidArena(b) && cur < |a| && Extends(a, b)
    requires ChildNamed(a, cur, name) == Some(v)
    ensures ChildNamed(b, cur, name) == Some(v)
  {
    FirstNamedStable(a, b, a[cur].children, b[cur].children, name);
  }

  lemma {:induction false} DescendIdempotent(nodes: seq<Entry>, cur: nat, rel: seq<string>, path: Path, kind: FileType)
    requires ValidArena(nodes) && cur < |nodes|
    requires rel != [] ==> rel[|rel| - 1] == Filename(path)
    ensures var r := Descend(nodes, cur, rel, path, kind);
      r.file.Some? ==> Descend(r.nodes, cur, rel, path, kind) == r
    decreases |rel|
  {
    var r := Descend(nodes, cur, rel, path, kind);
    if rel != [] && r.file.Some? {
      match ChildNamed(nodes, cur, rel[0])
      case Some(child) =>
        if |rel| > 1 {
          DescendIdempotent(nodes, child, rel[1..], path, kind);
          ChildNamedStable(nodes, r.nodes, cur, rel[0], child);
        }
      case None =>
        if |rel| == 1 {
          var n1 := AddChild(nodes, cur, NewEntry(kind, path));
          FirstNamedAppend(nodes, n1, nodes[cur].children, |nodes|, rel[0]);
        } else {
          var n1 := AddChild(nodes, cur, NewEntry(Folder, Join(Stem(nodes[cur].path), rel[0])));
          FirstNamedAppend(nodes, n1, nodes[cur].children, |nodes|, rel[0]);
          DescendIdempotent(n1, |nodes|, rel[1..], path, kind);
          ChildNamedStable(n1, r.nodes, cur, rel[0], |nodes|);
        }
    }
  }

  /**
   * Idempotence: asking again for an entry that was just found or created
   * returns the same entry and changes nothing, so no duplicate sibling is
   * ever made.
   */
  lemma FindOrCreateIdempotent(nodes: seq<Entry>, path: Path, kind: FileType)
    requires ValidArena(nodes) && NoDots(path)
    ensures var r := FindOrCreate(nodes, path, kind);
      r.file.Some? ==> FindOrCreate(r.nodes, path, kind) == r
  {
    var r := FindOrCreate(nodes, path, kind);
    if r.file.Some? {
      var rel := Relative(path, nodes[0].path).value;
      RelativeRejoins(path, nodes[0].path);
      var e := Elements(path);
      assert e == Elements(nodes[0].path) + rel;
      assert rel != [] ==> rel[|rel| - 1] == e[|e| - 1];
      DescendIdempotent(nodes, 0, rel, path, kind);
    }
  }

  /**
   * The entries a walk creates below an entry whose path is `parent`, for
   * `names`, numbered from `start`: for every name but the last an
   * intermediate folder named stem(parent's path) / name whose only child is
   * the next entry, and last the GAME entry for `path`.
   */
  function ChainEntries(parent: Path, names: seq<string>, start: nat, path: Path): (r: seq<Entry>)
    ensures |r| == |names|
    decreases |names|
  {
    if names == [] then []
    else if |names| == 1 then [NewEntry(Game, path)]
    else
      var folder := Join(Stem(parent), names[0]);
      [NewEntry(Folder, folder).(children := [start + 1])] + ChainEntries(folder, names[1..], start + 1, path)
  }

  /**
   * `b` is `a` with the ChainEntries for `names` appended below the existing
   * entry `q`: `q` gains exactly one child, appended last, and no other
   * existing entry changes.
   */
  predicate Chain(a: seq<Entry>, b: seq<Entry>, q: nat, names: seq<string>, path: Path)
  {
    && |names| > 0 && |b| == |a| + |names| && q < |a|
    && b[q] == a[q].(children := a[q].children + [|a|])
    && (forall i :: 0 <= i < |a| && i != q ==> b[i] == a[i])
    && b[|a|..] == ChainEntries(a[q].path, names, |a|, path)
  }

  /**
   * A chain below the new folder `n1[|nodes|]`, which AddChild hung off
   * `cur`, is a chain below `cur` that starts with that folder.
   */
  lemma ChainPrepend(nodes: seq<Entry>, cur: nat, name: string, n1: seq<Entry>, b: seq<Entry>, names: seq<string>, path: Path)
    requires cur < |nodes| && |n1| == |nodes| + 1
    requires n1[cur] == nodes[cur].(children := nodes[cur].children + [|nodes|])
    requires forall i :: 0 <= i < |nodes| && i != cur ==> n1[i] == nodes[i]
    requires n1[|nodes|] == NewEntry(Folder, Join(Stem(nodes[cur].path), name))
    requires Chain(n1, b, |nodes|, names, path)
    ensures Chain(nodes, b, cur, [name] + names, path)
  {
    var f := Join(Stem(nodes[cur].path), name);
    assert n1[|nodes|].path == f && n1[|nodes|].children == [];
    assert b[|nodes|] == NewEntry(Folder, f).(children := [|nodes| + 1]);
    ChainEntriesCons(nodes[cur].path, name, names, |nodes|, path);
    DropOne(b, |nodes|);
  }

  /** The chain for `[name] + names` is the folder for `name` followed by the chain below it. */
  lemma ChainEntriesCons(parent: Path, name: string, names: seq<string>, start: nat, path: Path)
    requires names != []
    ensures var f := Join(Stem(parent), name);
      ChainEntries(parent, [name] + names, start, path)
        == [NewEntry(Folder, f).(children := [start + 1])] + ChainEntries(f, names, start + 1, path)
  {
    assert ([name] + names)[1..] == names;
  }

  lemma DropOne<T>(s: seq<T>, k: nat)
    requires k < |s|
    ensures s[k..] == [s[k]] + s[k + 1..]
  {
  }

  /**
   * The entries a walk creates form a Chain below one existing entry, for
   * the last relative names.
   */
  lemma {:induction false} DescendCreatesChain(nodes: seq<Entry>, cur: nat, rel: seq<string>, path: Path, kind: FileType)
    returns (q: nat)
    requires ValidArena(nodes) && cur < |nodes|
    ensures var r := Descend(nodes, cur, rel, path, kind);
      |r.nodes| > |nodes| ==>
        && kind == Game && |r.nodes| <= |nodes| + |rel|
        && Chain(nodes, r.nodes, q, rel[|rel| - (|r.nodes| - |nodes|)..], path)
    decreases |rel|
  {
    q := cur;
    var r := Descend(nodes, cur, rel, path, kind);
    if rel == [] || |r.nodes| == |nodes| {
      return;
    }
    match ChildNamed(nodes, cur, rel[0])
    case Some(child) =>
      assert |rel| > 1 && r == Descend(nodes, child, rel[1..], path, kind);
      q := DescendCreatesChain(nodes, child, rel[1..], path, kind);
      DescendBounds(nodes, child, rel[1..], path, kind);
      ChainSuffix(nodes, r.nodes, q, rel, path);
    case None =>
      FreshChain(nodes, cur, rel, path);
      assert rel[|rel| - (|r.nodes| - |nodes|)..] == rel;
  }

  /**
   * When `cur` has no child for the first name, a GAME walk creates the
   * whole chain below `cur`, one entry per name.
   */
  lemma {:induction false} FreshChain(nodes: seq<Entry>, cur: nat, rel: seq<string>, path: Path)
    requires ValidArena(nodes) && cur < |nodes| && rel != [] && ChildNamed(nodes, cur, rel[0]).None?
    ensures Chain(nodes, Descend(nodes, cur, rel, path, Game).nodes, cur, rel, path)
    decreases |rel|
  {
    if |rel| == 1 {
      ChainLeaf(nodes, cur, rel, path);
    } else {
      var n1 := AddChild(nodes, cur, NewEntry(Folder, Join(Stem(nodes[cur].path), rel[0])));
      assert Descend(nodes, cur, rel, path, Game) == Descend(n1, |nodes|, rel[1..], path, Game);
      assert ChildNamed(n1, |nodes|, rel[1]).None?;
      FreshChain(n1, |nodes|, rel[1..], path);
      ChainPrepend(nodes, cur, rel[0], n1, Descend(n1, |nodes|, rel[1..], path, Game).nodes, rel[1..], path);
      assert [rel[0]] + rel[1..] == rel;
    }
  }

  lemma ChainSuffix(nodes: seq<Entry>, b: seq<Entry>, q: nat, rel: seq<string>, path: Path)
    requires |rel| > 1 && |nodes| < |b| < |nodes| + |rel|
    requires Chain(nodes, b, q, rel[1..][|rel[1..]| - (|b| - |nodes|)..], path)
    ensures Chain(nodes, b, q, rel[|rel| - (|b| - |nodes|)..], path)
  {
    assert rel[1..][|rel[1..]| - (|b| - |nodes|)..] == rel[|rel| - (|b| - |nodes|)..];
  }

  lemma ChainLeaf(nodes: seq<Entry>, cur: nat, rel: seq<string>, path: Path)
    requires ValidArena(nodes) && cur < |nodes| && |rel| == 1
    ensures Chain(nodes, AddChild(nodes, cur, NewEntry(Game, path)), cur, rel, path)
  {
    var b := AddChild(nodes, cur, NewEntry(Game, path));
    assert b[|nodes|..] == [NewEntry(Game, path)];
  }

  /**
   * findOrCreateFile adds entries only as a Chain: below one existing entry,
   * at most one per relative name, intermediate folders named
   * stem(parent) / name, and the requested GAME entry last.
   */
  lemma FindOrCreateCreatesChain(nodes: seq<Entry>, path: Path, kind: FileType, rel: seq<string>) returns (q: nat)
    requires ValidArena(nodes) && Relative(path, nodes[0].path) == Some(rel)
    ensures var r := FindOrCreate(nodes, path, kind);
      |r.nodes| > |nodes| ==>
        |r.nodes| - |nodes| <= |rel| && Chain(nodes, r.nodes, q, rel[|rel| - (|r.nodes| - |nodes|)..], path)
  {
    assert FindOrCreate(nodes, path, kind) == Descend(nodes, 0, rel, path, kind);
    DescendBounds(nodes, 0, rel, path, kind);
    q := DescendCreatesChain(nodes, 0, rel, path, kind);
  }

  lemma {:induction false} AddChildKeepsUnique(nodes: seq<Entry>, parent: nat, e: Entry)
    requires ValidArena(nodes) && parent < |nodes| && e.children == [] && UniqueNames(nodes)
    requires ChildNamed(nodes, parent, Filename(e.path)).None?
    ensures UniqueNames(AddChild(nodes, parent, e))
  {
    var r := AddChild(nodes, parent, e);
    forall i, j, k | 0 <= i < |r| && 0 <= j < k < |r[i].children|
      ensures Filename(r[r[i].children[j]].path) != Filename(r[r[i].children[k]].path)
    {
      if i == parent {
        if k == |r[i].children| - 1 {
          assert r[i].children[k] == |nodes|;
          assert nodes[parent].children[j] == r[i].children[j];
        } else {
          assert nodes[i].children[j] == r[i].children[j];
          assert nodes[i].children[k] == r[i].children[k];
        }
      } else if i < |nodes| {
        assert r[i] == nodes[i];
      }
    }
  }

  lemma {:induction false} DescendKeepsUnique(nodes: seq<Entry>, cur: nat, rel: seq<string>, path: Path, kind: FileType)
    requires ValidArena(nodes) && cur < |nodes| && UniqueNames(nodes)
    requires rel != [] ==> rel[|rel| - 1] == Filename(path)
    ensures UniqueNames(Descend(nodes, cur, rel, path, kind).nodes)
    decreases |rel|
  {
    if rel != [] {
      match ChildNamed(nodes, cur, rel[0])
      case Some(child) =>
        if |rel| > 1 {
          DescendKeepsUnique(nodes, child, rel[1..], path, kind);
        }
      case None =>
        if kind == Game {
          if |rel| == 1 {
            AddChildKeepsUnique(nodes, cur, NewEntry(kind, path));
          } else {
            var folder := NewEntry(Folder, Join(Stem(nodes[cur].path), rel[0]));
            AddChildKeepsUnique(nodes, cur, folder);
            DescendKeepsUnique(AddChild(nodes, cur, folder), |nodes|, rel[1..], path, kind);
          }
        }
    }
  }

  /** findOrCreateFile never gives two children of one entry the same file name. */
  lemma FindOrCreateKeepsUnique(nodes: seq<Entry>, path: Path, kind: FileType)
    requires ValidArena(nodes) && UniqueNames(nodes) && NoDots(path)
    ensures UniqueNames(FindOrCreate(nodes, path, kind).nodes)
  {
    match Relative(path, nodes[0].path)
    case None =>
    case Some(rel) =>
      RelativeRejoins(path, nodes[0].path);
      var e := Elements(path);
      assert e == Elements(nodes[0].path) + rel;
      assert rel != [] ==> rel[|rel| - 1] == e[|e| - 1];
      DescendKeepsUnique(nodes, 0, rel, path, kind);
  }

  // ----- the tree as the source keeps it: updated in place

  /** The entries of one system; `nodes[0]` is the root folder. */
  class SystemTree {
    var nodes: seq<Entry>

    ghost predicate Valid()
      reads this
    {
      ValidArena(nodes)
    }

    /** A system whose root folder is at `rootPath` and has no children yet. */
    constructor (rootPath: Path)
      ensures Valid() && nodes == [NewEntry(Folder, rootPath)]
    {
      nodes := [NewEntry(Folder, rootPath)];
    }

    /** The search of src/XMLReader.cpp:71-79: the first child of `cur` named `name`. */
    method FindChild(cur: nat, name: string) returns (found: Option<nat>)
      requires Valid() && cur < |nodes|
      ensures found == ChildNamed(nodes, cur, name)
    {
      var children := nodes[cur].children;
      var k := 0;
      while k < |children|
        invariant 0 <= k <= |children|
        invariant FirstNamed(nodes, children[k..], name) == ChildNamed(nodes, cur, name)
      {
        assert children[k..][1..] == children[k + 1..];
        if Filename(nodes[children[k]].path) == name {
          return Some(children[k]);
        }
        k := k + 1;
      }
      return None;
    }

    /** FileData::addChild on `parent`, with a new entry `e`. */
    method AddChildEntry(parent: nat, e: Entry) returns (id: nat)
      requires Valid() && parent < |nodes| && e.children == []
      modifies this
      ensures Valid()
      ensures nodes == AddChild(old(nodes), parent, e) && id == |old(nodes)|
    {
      id := |nodes|;
      nodes := AddChild(nodes, parent, e);
    }

    /**
     * One level of the walk of findOrCreateFile (src/XMLReader.cpp:69-114):
     * either the walk ends here with `file`, or it goes on from entry `next`
     * with the remaining names.
     */
    method WalkLevel(cur: nat, rel: seq<string>, path: Path, kind: FileType)
      returns (done: bool, file: Option<nat>, next: nat)
      requires Valid() && cur < |nodes| && rel != []
      modifies this
      ensures Valid()
      ensures done ==> Outcome(nodes, file) == Descend(old(nodes), cur, rel, path, kind)
      ensures !done ==>
        (|rel| > 1 && next < |nodes| &&
         Descend(nodes, next, rel[1..], path, kind) == Descend(old(nodes), cur, rel, path, kind))
    {
      var found := FindChild(cur, rel[0]);
      if |rel| == 1 {
        if found.Some? {
          return true, found, cur;
        }
        if kind == Folder {
          return true, None, cur;
        }
        var id := AddChildEntry(cur, NewEntry(kind, path));
        return true, Some(id), cur;
      }
      if found.None? {
        if kind == Folder {
          return true, None, cur;
        }
        var folder := AddChildEntry(cur, NewEntry(Folder, Join(Stem(nodes[cur].path), rel[0])));
        return false, None, folder;
      }
      return false, None, found.value;
    }

    /**
     * findOrCreateFile (src/XMLReader.cpp:51-118): the returned entry and the
     * new tree are those of FindOrCreate.
     */
    method FindOrCreateFile(path: Path, kind: FileType) returns (file: Option<nat>)
      requires Valid()
      modifies this
      ensures Valid()
      ensures Outcome(nodes, file) == FindOrCreate(old(nodes), path, kind)
    {
      var relative, contains := RemoveCommonPath(path, nodes[0].path);
      if !contains {
        return None;
      }
      var rel := relative.names;
      assert rel[0..] == rel;
      var treeNode: nat := 0;
      var i := 0;
      while i < |rel|
        invariant Valid() && treeNode < |nodes| && 0 <= i <= |rel|
        invariant FindOrCreate(old(nodes), path, kind) == Descend(nodes, treeNode, rel[i..], path, kind)
      {
        var done, found, next := WalkLevel(treeNode, rel[i..], path, kind);
        if done {
          return found;
        }
        assert rel[i..][1..] == rel[i + 1..];
        treeNode := next;
        i := i + 1;
      }
      return None;
    }
  }
}
