/**
 * parseGamelist (src/XMLReader.cpp:120-177): reads the gameList document
 * into the system's tree, games first, then folders.
 */
module Loader {
  import opened Options
  import opened Paths
  import opened Catalog
  import opened Gamelist

  /** The path an element names: its `path` child parsed as a path (line 153). */
  function ElementPath(node: XmlNode): Path
  {
    Parse(ChildText(node, "path"))
  }

  /**
   * The tree after one element of kind `kind` is read (lines 153-174): a
   * missing file or a failed lookup leaves it alone; otherwise the entry's
   * metadata is replaced by the element's, keeping the previous name when the
   * element gives none.
   */
  function LoadElement(nodes: seq<Entry>, node: XmlNode, kind: FileType, fs: FileSystem, decl: seq<MetaDecl>): (r: seq<Entry>)
    requires ValidArena(nodes)
    ensures ValidArena(r) && Extends(nodes, r)
  {
    var path := ElementPath(node);
    if !fs.present(path) then nodes
    else
      var found := FindOrCreate(nodes, path, kind);
      match found.file
      case None => found.nodes
      case Some(id) =>
        var n1 := found.nodes;
        var defaultName := Get(n1[id].metadata, decl, "name");
        var md := CreateFromXml(decl, node);
        var md' := if Get(md, decl, "name") == "" then md["name" := defaultName] else md;
        ExtendsTransitive(nodes, n1, SetMetadata(n1, id, md'));
        SetMetadata(n1, id, md')
  }

  /** `file->metadata = md` on entry `id`. */
  function SetMetadata(nodes: seq<Entry>, id: nat, md: map<string, string>): (r: seq<Entry>)
    requires ValidArena(nodes) && id < |nodes|
    ensures ValidArena(r) && Extends(nodes, r)
    ensures |r| == |nodes| && r[id] == nodes[id].(metadata := md)
    ensures forall i :: 0 <= i < |nodes| && i != id ==> r[i] == nodes[i]
  {
    nodes[id := nodes[id].(metadata := md)]
  }

  /** The tree after every element called `tag` among `elems` is read, in document order. */
  function LoadTagged(nodes: seq<Entry>, elems: seq<XmlNode>, tag: string, kind: FileType, fs: FileSystem, decl: seq<MetaDecl>): (r: seq<Entry>)
    requires ValidArena(nodes)
    ensures ValidArena(r) && Extends(nodes, r)
  {
    if elems == [] then nodes
    else
      var before := LoadTagged(nodes, elems[..|elems| - 1], tag, kind, fs, decl);
      ExtendsTransitive(nodes, before, if elems[|elems| - 1].name == tag then LoadElement(before, elems[|elems| - 1], kind, fs, decl) else before);
      if elems[|elems| - 1].name == tag then LoadElement(before, elems[|elems| - 1], kind, fs, decl)
      else before
  }

  /**
   * The tree after parseGamelist: unchanged when the file is missing,
   * unreadable or has no gameList element; otherwise the game elements are
   * read, then the folder elements.
   */
  function Load(nodes: seq<Entry>, file: GamelistFile, fs: FileSystem, decl: seq<MetaDecl>): (r: seq<Entry>)
    requires ValidArena(nodes)
    ensures ValidArena(r) && Extends(nodes, r)
  {
    match file
    case Absent => nodes
    case Unparsable => nodes
    case Parsed(top) =>
      match ChildIndex(top, "gameList")
      case None => nodes
      case Some(g) =>
        var games := LoadTagged(nodes, top[g].children, "game", Game, fs, decl);
        ExtendsTransitive(nodes, games, LoadTagged(games, top[g].children, "folder", Folder, fs, decl));
        LoadTagged(games, top[g].children, "folder", Folder, fs, decl)
  }

  // ----- properties of loading

  /**
   * A missing file, a file that does not parse, or a document without a
   * gameList element leaves the tree as it was; otherwise the games pass runs
   * first and the folders pass reads the tree it left.
   */
  lemma LoadCases(nodes: seq<Entry>, file: GamelistFile, fs: FileSystem, decl: seq<MetaDecl>)
    requires ValidArena(nodes)
    ensures file.Absent? || file.Unparsable? ==> Load(nodes, file, fs, decl) == nodes
    ensures file.Parsed? && ChildIndex(file.top, "gameList").None? ==> Load(nodes, file, fs, decl) == nodes
    ensures file.Parsed? && ChildIndex(file.top, "gameList").Some? ==>
      var elems := file.top[ChildIndex(file.top, "gameList").value].children;
      Load(nodes, file, fs, decl)
        == LoadTagged(LoadTagged(nodes, elems, "game", Game, fs, decl), elems, "folder", Folder, fs, decl)
  {
  }

  /**
   * An element whose path does not exist, or for which lookup-or-create
   * fails, leaves the tree as it was.
   */
  lemma SkippedElementChangesNothing(nodes: seq<Entry>, node: XmlNode, kind: FileType, fs: FileSystem, decl: seq<MetaDecl>)
    requires ValidArena(nodes)
    requires !fs.present(ElementPath(node)) || FindOrCreate(nodes, ElementPath(node), kind).file.None?
    ensures LoadElement(nodes, node, kind, fs, decl) == nodes
  {
  }

  /**
   * An element that is read replaces the metadata of exactly one entry, the
   * one lookup-or-create returns: with the element's metadata, and with the
   * entry's previous name when the element's name is empty.  No key of the
   * old metadata survives unless the element's metadata has it or it is
   * `name`.
   */
  lemma LoadedElementSetsMetadata(nodes: seq<Entry>, node: XmlNode, kind: FileType, fs: FileSystem, decl: seq<MetaDecl>)
    requires ValidArena(nodes)
    requires fs.present(ElementPath(node)) && FindOrCreate(nodes, ElementPath(node), kind).file.Some?
    ensures var found := FindOrCreate(nodes, ElementPath(node), kind);
      var id := found.file.value;
      var r := LoadElement(nodes, node, kind, fs, decl);
      var parsed := CreateFromXml(decl, node);
      && |r| == |found.nodes|
      && (forall i :: 0 <= i < |r| && i != id ==> r[i] == found.nodes[i])
      && r[id].kind == found.nodes[id].kind && r[id].path == found.nodes[id].path
      && r[id].children == found.nodes[id].children
      && r[id].metadata.Keys <= parsed.Keys + {"name"}
      && (forall k :: k in parsed && k != "name" ==> k in r[id].metadata && r[id].metadata[k] == parsed[k])
      && Get(r[id].metadata, decl, "name") ==
           (if Get(parsed, decl, "name") != "" then Get(parsed, decl, "name")
            else Get(found.nodes[id].metadata, decl, "name"))
  {
  }

  /** Reading folder elements never adds an entry and never changes a child list. */
  lemma {:induction false} FolderElementsAddNothing(nodes: seq<Entry>, elems: seq<XmlNode>, fs: FileSystem, decl: seq<MetaDecl>)
    requires ValidArena(nodes)
    ensures var r := LoadTagged(nodes, elems, "folder", Folder, fs, decl);
      |r| == |nodes| && forall i :: 0 <= i < |r| ==> r[i].children == nodes[i].children
  {
    if elems != [] {
      FolderElementsAddNothing(nodes, elems[..|elems| - 1], fs, decl);
    }
  }

  /** The tree keeps sibling file names distinct while elements are read. */
  lemma {:induction false} LoadTaggedKeepsUnique(nodes: seq<Entry>, elems: seq<XmlNode>, tag: string, kind: FileType, fs: FileSystem, decl: seq<MetaDecl>)
    requires ValidArena(nodes) && UniqueNames(nodes)
    requires forall i :: 0 <= i < |elems| && elems[i].name == tag ==> NoDots(ElementPath(elems[i]))
    ensures UniqueNames(LoadTagged(nodes, elems, tag, kind, fs, decl))
  {
    if elems != [] {
      var init := elems[..|elems| - 1];
      assert forall i :: 0 <= i < |init| ==> init[i] == elems[i];
      LoadTaggedKeepsUnique(nodes, init, tag, kind, fs, decl);
      var before := LoadTagged(nodes, init, tag, kind, fs, decl);
      var last := elems[|elems| - 1];
      if last.name == tag {
        LoadElementKeepsUnique(before, last, kind, fs, decl);
      }
    }
  }

  lemma LoadElementKeepsUnique(nodes: seq<Entry>, node: XmlNode, kind: FileType, fs: FileSystem, decl: seq<MetaDecl>)
    requires ValidArena(nodes) && UniqueNames(nodes) && NoDots(ElementPath(node))
    ensures UniqueNames(LoadElement(nodes, node, kind, fs, decl))
  {
    var path := ElementPath(node);
    if fs.present(path) {
      FindOrCreateKeepsUnique(nodes, path, kind);
      var found := FindOrCreate(nodes, path, kind);
      var r := LoadElement(nodes, node, kind, fs, decl);
      assert |r| == |found.nodes|;
      assert forall i :: 0 <= i < |r| ==> r[i].path == found.nodes[i].path && r[i].children == found.nodes[i].children;
    }
  }

  /**
   * parseGamelist (src/XMLReader.cpp:120-177), updating `tree` in place:
   * the new tree is Load of the old one.
   */
  method ParseGamelist(tree: SystemTree, file: GamelistFile, fs: FileSystem, decl: seq<MetaDecl>)
    requires tree.Valid()
    modifies tree
    ensures tree.Valid()
    ensures tree.nodes == Load(old(tree.nodes), file, fs, decl)
  {
    if file.Absent? || file.Unparsable? {
      return;
    }
    var g := ChildIndex(file.top, "gameList");
    if g.None? {
      return;
    }
    var elems := file.top[g.value].children;
    ghost var start := tree.nodes;
    assert Load(start, file, fs, decl)
        == LoadTagged(LoadTagged(start, elems, "game", Game, fs, decl), elems, "folder", Folder, fs, decl);
    var tags := ["game", "folder"];
    var kinds := [Game, Folder];
    for t := 0 to 2
      invariant tree.Valid()
      invariant t == 0 ==> tree.nodes == start
      invariant t == 1 ==> tree.nodes == LoadTagged(start, elems, "game", Game, fs, decl)
      invariant t == 2 ==> tree.nodes == Load(start, file, fs, decl)
    {
      ghost var pass := tree.nodes;
      var j := 0;
      while j < |elems|
        invariant 0 <= j <= |elems| && tree.Valid()
        invariant tree.nodes == LoadTagged(pass, elems[..j], tags[t], kinds[t], fs, decl)
      {
        assert elems[..j + 1][..j] == elems[..j];
        if elems[j].name == tags[t] {
          LoadElementInto(tree, elems[j], kinds[t], fs, decl);
        }
        j := j + 1;
      }
      assert elems[..j] == elems;
      assert t == 1 ==> tags[t] == "folder" && kinds[t] == Folder;
    }
  }

  /** The body of the element loop (src/XMLReader.cpp:153-174) on `tree`. */
  method LoadElementInto(tree: SystemTree, node: XmlNode, kind: FileType, fs: FileSystem, decl: seq<MetaDecl>)
    requires tree.Valid()
    modifies tree
    ensures tree.Valid()
    ensures tree.nodes == LoadElement(old(tree.nodes), node, kind, fs, decl)
  {
    var path := ElementPath(node);
    if !fs.present(path) {
      return;
    }
    var file := tree.FindOrCreateFile(path, kind);
    if file.None? {
      return;
    }
    var id := file.value;
    var defaultName := Get(tree.nodes[id].metadata, decl, "name");
    var md := CreateFromXml(decl, node);
    if Get(md, decl, "name") == "" {
      md := md["name" := defaultName];
    }
    tree.nodes := SetMetadata(tree.nodes, id, md);
  }
}
