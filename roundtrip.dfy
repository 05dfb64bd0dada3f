/**
 * A load followed by a save with nothing changed in between, worked out on a
 * small system rooted at /r.  The first save is not a round trip.  The folder
 * that the game pass creates on the way to a game below it gets the path
 * stem(parent's path) / name (src/XMLReader.cpp:109), which is not the path
 * its `folder` element names; so the save keeps the old element and writes a
 * second one.  Metadata that the declaration does not name is dropped.
 * Last, a document holding one game's element twice shows that even the
 * second save can change the document.
 */
module RoundTrip {
  import opened Options
  import opened Paths
  import opened Catalog
  import opened Gamelist
  import opened Loader
  import opened Writer

  const RootPath := Path("/", ["r"])
  const FolderPath := Path("/", ["r", "foo"])
  const GamePath := Path("/", ["r", "foo", "a.nes"])
  /** Where line 109 puts the folder foo below the root: stem("/r") / "foo". */
  const StemFolderPath := Path("", ["r", "foo"])

  /** Only `name` is declared, with an empty default. */
  const Decl := [MetaDecl("name", "")]

  /** Every absolute path exists, no relative one does, and equivalence is equality. */
  const Disk := FileSystem((p: Path) => p.root == "/", (a: Path, b: Path) => a == b)

  function Leaf(name: string, text: string): XmlNode
  {
    XmlNode(name, text, [])
  }

  /** A game with a name and a `developer` child that the declaration does not name. */
  const GameElement := XmlNode("game", "", [Leaf("path", "/r/foo/a.nes"), Leaf("name", "A"), Leaf("developer", "D")])
  const FolderElement := XmlNode("folder", "", [Leaf("path", "/r/foo"), Leaf("name", "F")])
  const Document := Parsed([XmlNode("gameList", "", [GameElement, FolderElement])])

  /** The tree of a freshly created system: its root folder alone. */
  const Fresh := [NewEntry(Folder, RootPath)]

  /** The tree the document loads into. */
  const Loaded := [
    Entry(Folder, RootPath, map["name" := "r"], [1]),
    Entry(Folder, StemFolderPath, map["name" := "F"], [2]),
    Entry(Game, GamePath, map["name" := "A"], [])
  ]

  /** The element written for the folder foo: its path is the relative r/foo. */
  const WrittenFolder := XmlNode("folder", "", [Leaf("path", "r/foo"), Leaf("name", "F")])
  /** The element written for the game: its `developer` child is gone. */
  const WrittenGame := XmlNode("game", "", [Leaf("path", "/r/foo/a.nes"), Leaf("name", "A")])

  /** The document the first save leaves. */
  const FirstSaved := [FolderElement, WrittenFolder, WrittenGame]

  /** The path texts of the example read back as its paths. */
  lemma ParseGame()
    ensures Parse("/r/foo/a.nes") == GamePath
  {
    RenderPaths();
    ParseRender(GamePath);
  }

  lemma ParseFolder()
    ensures Parse("/r/foo") == FolderPath
  {
    RenderPaths();
    ParseRender(FolderPath);
  }

  lemma ParseStemFolder()
    ensures Parse("r/foo") == StemFolderPath
  {
    RenderPaths();
    ParseRender(StemFolderPath);
  }

  /** The generic strings of the example's paths. */
  lemma RenderPaths()
    ensures Render(GamePath) == "/r/foo/a.nes" && Render(FolderPath) == "/r/foo" && Render(StemFolderPath) == "r/foo"
  {
    var ns := ["r", "foo", "a.nes"];
    assert ns[1..] == ["foo", "a.nes"] && ns[1..][1..] == ["a.nes"];
    assert JoinNames(["a.nes"]) == "a.nes";
    assert JoinNames(["foo", "a.nes"]) == "foo" + "/" + "a.nes";
    assert JoinNames(ns) == "r" + "/" + "foo/a.nes";
    assert ns[..2] == ["r", "foo"] && ns[..2][1..] == ["foo"];
    assert JoinNames(["foo"]) == "foo";
    assert JoinNames(["r", "foo"]) == "r" + "/" + "foo";
  }

  /** A name without a '.' is its own stem. */
  lemma PlainStem(name: string)
    requires name != "" && forall i :: 0 <= i < |name| ==> name[i] != '.'
    ensures StemName(name) == name
  {
    LastDotIsLast(name);
  }

  /** The stems of the example's names. */
  lemma Stems()
    ensures StemName("r") == "r" && StemName("foo") == "foo" && StemName("a.nes") == "a"
  {
    PlainStem("r");
    PlainStem("foo");
    var n := "a.nes";
    LastDotIsLast(n);
    assert n[1] == '.' && n[2] != '.' && n[3] != '.' && n[4] != '.';
    assert LastDot(n) == Some(1);
    assert n[..1] == "a";
  }

  /** The tree after the game pass: the folder foo still carries its clean name. */
  const AfterGames := [
    Entry(Folder, RootPath, map["name" := "r"], [1]),
    Entry(Folder, StemFolderPath, map["name" := "foo"], [2]),
    Entry(Game, GamePath, map["name" := "A"], [])
  ]

  /**
   * The game pass creates the folder foo with the relative path r/foo, and
   * the folder pass finds it by its file name and gives it the element's
   * metadata; the game keeps only its declared metadata.
   */
  lemma LoadNestedFolder()
    ensures Load(Fresh, Document, Disk, Decl) == Loaded
    ensures Loaded[1].path != FolderPath
  {
    LoadCases(Fresh, Document, Disk, Decl);
    assert ChildIndex(Document.top, "gameList") == Some(0);
    GamePass();
    FolderPass();
  }

  /** The game element makes the folder foo at r/foo and the game below it. */
  lemma GameLookup()
    ensures FindOrCreate(Fresh, GamePath, Game) == Outcome(Created, Some(2))
  {
    GameRelative();
    RootFolderCreated();
    GameCreated();
    assert ChildNamed(Fresh, 0, "foo") == None;
    assert ChildNamed(OneFolder, 1, "a.nes") == None;
    var rel := ["foo", "a.nes"];
    assert rel[1..] == ["a.nes"];
    assert Descend(OneFolder, 1, ["a.nes"], GamePath, Game) == Outcome(Created, Some(2));
    assert Fresh[0].path == RootPath;
    assert Descend(Fresh, 0, rel, GamePath, Game) == Descend(OneFolder, 1, ["a.nes"], GamePath, Game);
  }

  /** The tree after the folder foo is created below the root. */
  const OneFolder := [
    Entry(Folder, RootPath, map["name" := "r"], [1]),
    Entry(Folder, StemFolderPath, map["name" := "foo"], [])
  ]

  /** The tree after the game is created below foo. */
  const Created := [
    Entry(Folder, RootPath, map["name" := "r"], [1]),
    Entry(Folder, StemFolderPath, map["name" := "foo"], [2]),
    NewEntry(Game, GamePath)
  ]

  /** /r/foo/a.nes lies inside the root /r, two names below it. */
  lemma GameRelative()
    ensures Relative(GamePath, RootPath) == Some(["foo", "a.nes"])
  {
    assert Elements(GamePath)[2..] == ["foo", "a.nes"];
    assert DropDots(["foo", "a.nes"]) == ["foo", "a.nes"] by {
      assert ["foo", "a.nes"][..1] == ["foo"] && ["foo"][..0] == [];
    }
  }

  /** The missing folder foo is created with the path stem("/r") / "foo" = r/foo (line 109). */
  lemma RootFolderCreated()
    ensures AddChild(Fresh, 0, NewEntry(Folder, Join(Stem(RootPath), "foo"))) == OneFolder
  {
    PlainStem("r");
    PlainStem("foo");
    assert Stem(RootPath) == Path("", ["r"]);
    assert Join(Path("", ["r"]), "foo") == StemFolderPath;
    assert CleanFileName(RootPath) == "r";
    assert CleanFileName(StemFolderPath) == "foo";
    var n1 := AddChild(Fresh, 0, NewEntry(Folder, StemFolderPath));
    assert |n1| == 2 && n1[0] == OneFolder[0] && n1[1] == OneFolder[1];
  }

  /** The game is created below foo. */
  lemma GameCreated()
    ensures AddChild(OneFolder, 1, NewEntry(Game, GamePath)) == Created
  {
    var n2 := AddChild(OneFolder, 1, NewEntry(Game, GamePath));
    assert |n2| == 3 && n2[0] == Created[0] && n2[1] == Created[1] && n2[2] == Created[2];
  }

  /** The declared metadata of the two elements: only their names. */
  lemma ParsedMetadata()
    ensures CreateFromXml(Decl, GameElement) == map["name" := "A"]
    ensures CreateFromXml(Decl, FolderElement) == map["name" := "F"]
  {
    assert Keys(Decl) == {"name"} by {
      assert Decl[0].key == "name";
    }
    assert ChildIndex(GameElement.children, "name") == Some(1);
    assert ChildIndex(FolderElement.children, "name") == Some(1);
  }

  /** The game pass reads the one game element. */
  lemma GamePass()
    ensures LoadTagged(Fresh, [GameElement, FolderElement], "game", Game, Disk, Decl) == AfterGames
  {
    GameElementLoads();
    TaggedFirst(Fresh, GameElement, FolderElement, "game", Game, Disk, Decl);
  }

  /** Of two elements, only the first carries the tag: only it is read. */
  lemma TaggedFirst(nodes: seq<Entry>, x: XmlNode, y: XmlNode, tag: string, kind: FileType, fs: FileSystem, decl: seq<MetaDecl>)
    requires ValidArena(nodes) && x.name == tag && y.name != tag
    ensures LoadTagged(nodes, [x, y], tag, kind, fs, decl) == LoadElement(nodes, x, kind, fs, decl)
  {
    assert [x, y][..1] == [x] && [x][..0] == [];
    assert LoadTagged(nodes, [x], tag, kind, fs, decl) == LoadElement(nodes, x, kind, fs, decl);
  }

  /** Of two elements, only the second carries the tag: only it is read. */
  lemma TaggedSecond(nodes: seq<Entry>, x: XmlNode, y: XmlNode, tag: string, kind: FileType, fs: FileSystem, decl: seq<MetaDecl>)
    requires ValidArena(nodes) && x.name != tag && y.name == tag
    ensures LoadTagged(nodes, [x, y], tag, kind, fs, decl) == LoadElement(nodes, y, kind, fs, decl)
  {
    assert [x, y][..1] == [x] && [x][..0] == [];
    assert LoadTagged(nodes, [x], tag, kind, fs, decl) == nodes;
  }

  /** The game element creates foo and the game, and names the game A. */
  lemma GameElementLoads()
    ensures LoadElement(Fresh, GameElement, Game, Disk, Decl) == AfterGames
  {
    GameElementPath();
    GameLookup();
    ParsedMetadata();
    GameNamed();
  }

  /** The fresh game is named a; its element's name A replaces that. */
  lemma GameNamed()
    ensures Get(Created[2].metadata, Decl, "name") == "a"
    ensures Get(map["name" := "A"], Decl, "name") == "A"
    ensures SetMetadata(Created, 2, map["name" := "A"]) == AfterGames
  {
    Stems();
    assert CleanFileName(GamePath) == "a";
    var r := SetMetadata(Created, 2, map["name" := "A"]);
    assert |r| == 3 && r[0] == AfterGames[0] && r[1] == AfterGames[1] && r[2] == AfterGames[2];
  }

  /** The game element names /r/foo/a.nes, which exists. */
  lemma GameElementPath()
    ensures ElementPath(GameElement) == GamePath && Disk.present(GamePath)
  {
    ParseGame();
    assert ChildIndex(GameElement.children, "path") == Some(0);
  }

  /** The folder pass finds foo by its file name and gives it the element's name. */
  lemma FolderPass()
    ensures LoadTagged(AfterGames, [GameElement, FolderElement], "folder", Folder, Disk, Decl) == Loaded
  {
    FolderElementLoads();
    TaggedSecond(AfterGames, GameElement, FolderElement, "folder", Folder, Disk, Decl);
  }

  /** The folder element's path is found as the entry foo, by its file name alone. */
  lemma FolderLookup()
    ensures FindOrCreate(AfterGames, FolderPath, Folder) == Outcome(AfterGames, Some(1))
  {
    FolderRelative();
    FolderChild();
    assert AfterGames[0].path == RootPath;
  }

  /** /r/foo lies inside the root /r, one name below it. */
  lemma FolderRelative()
    ensures Relative(FolderPath, RootPath) == Some(["foo"])
  {
    assert Elements(FolderPath)[2..] == ["foo"];
    assert DropDots(["foo"]) == ["foo"] by {
      assert ["foo"][..0] == [];
    }
  }

  /** The root's child foo is found by its file name, although its path is r/foo. */
  lemma FolderChild()
    ensures ChildNamed(AfterGames, 0, "foo") == Some(1)
  {
    assert Filename(StemFolderPath) == "foo";
    assert AfterGames[0].children == [1];
    assert FirstNamed(AfterGames, [1], "foo") == Some(1);
  }

  /** The folder element gives the entry foo the name F. */
  lemma FolderElementLoads()
    ensures LoadElement(AfterGames, FolderElement, Folder, Disk, Decl) == Loaded
  {
    FolderElementPath();
    ParsedMetadata();
    FolderLookup();
    assert Get(map["name" := "F"], Decl, "name") == "F";
    var r := SetMetadata(AfterGames, 1, map["name" := "F"]);
    assert |r| == 3 && r[0] == Loaded[0] && r[1] == Loaded[1] && r[2] == Loaded[2];
  }

  /** The folder element names /r/foo, which exists. */
  lemma FolderElementPath()
    ensures ElementPath(FolderElement) == FolderPath && Disk.present(FolderPath)
  {
    ParseFolder();
    assert ChildIndex(FolderElement.children, "path") == Some(0);
  }

  /**
   * Saving the loaded tree, the folder first and then its game as the
   * traversal visits them: the old folder element stands for no entry, so it
   * stays, and a second folder element with the path r/foo is appended; the
   * game element is replaced by one without its `developer` child.
   */
  lemma FirstSaveAddsPath()
    ensures Reconcile([GameElement, FolderElement], Loaded[1..], Disk, Decl) == FirstSaved
  {
    var files := Loaded[1..];
    assert files[0] == Loaded[1] && files[1] == Loaded[2];
    TwoEntries([GameElement, FolderElement], files, Disk, Decl);
    FirstSaveFolder();
    FirstSaveGame();
  }

  /** Reconciling two entries is reconciling the first, then the second. */
  lemma TwoEntries(nodes: seq<XmlNode>, files: seq<Entry>, fs: FileSystem, decl: seq<MetaDecl>)
    requires |files| == 2
    ensures Reconcile(nodes, files, fs, decl) == ReconcileOne(ReconcileOne(nodes, files[0], fs, decl), files[1], fs, decl)
  {
    var first := files[..1];
    assert first[..|first| - 1] == [] && first[|first| - 1] == files[0];
    assert Reconcile(nodes, first, fs, decl) == ReconcileOne(nodes, files[0], fs, decl);
    assert files[..|files| - 1] == first && files[|files| - 1] == files[1];
  }

  /** An entry for which the first of three elements stands: that one goes, and `w` is appended. */
  lemma ReconcileOneFirst(x: XmlNode, y: XmlNode, z: XmlNode, file: Entry, fs: FileSystem, decl: seq<MetaDecl>, w: seq<XmlNode>)
    requires Matches(x, TagOf(file.kind), file.path, fs)
    requires Written(file, TagOf(file.kind), decl) == w
    ensures ReconcileOne([x, y, z], file, fs, decl) == [y, z] + w
  {
    assert [x, y, z][..0] + [x, y, z][1..] == [y, z];
  }

  /** An entry for which the second of three elements is the first to stand: that one goes. */
  lemma ReconcileOneSecond(x: XmlNode, y: XmlNode, z: XmlNode, file: Entry, fs: FileSystem, decl: seq<MetaDecl>, w: seq<XmlNode>)
    requires !Matches(x, TagOf(file.kind), file.path, fs) && Matches(y, TagOf(file.kind), file.path, fs)
    requires Written(file, TagOf(file.kind), decl) == w
    ensures ReconcileOne([x, y, z], file, fs, decl) == [x, z] + w
  {
    assert FirstMatch([x, y, z], TagOf(file.kind), file.path, fs) == Some(1);
    assert [x, y, z][..1] + [x, y, z][2..] == [x, z];
  }

  /** An entry for which neither of two elements stands only appends `w`. */
  lemma ReconcileOneNone(x: XmlNode, y: XmlNode, file: Entry, fs: FileSystem, decl: seq<MetaDecl>, w: seq<XmlNode>)
    requires !Matches(x, TagOf(file.kind), file.path, fs) && !Matches(y, TagOf(file.kind), file.path, fs)
    requires Written(file, TagOf(file.kind), decl) == w
    ensures ReconcileOne([x, y], file, fs, decl) == [x, y] + w
  {
    assert FirstMatch([x, y], TagOf(file.kind), file.path, fs) == None;
  }

  /** A single declared value other than the default is written as one leaf. */
  lemma WritesName(v: string)
    requires v != ""
    ensures AppendToXml(map["name" := v], Decl) == [Leaf("name", v)]
  {
    assert Decl[1..] == [];
  }

  /** What the loaded folder entry writes: its path r/foo and its name. */
  lemma FolderWrites()
    ensures Written(Loaded[1], "folder", Decl) == [WrittenFolder]
  {
    RenderPaths();
    PlainStem("foo");
    WritesName("F");
    assert CleanFileName(StemFolderPath) == "foo";
    assert [PathNode(Loaded[1])] + [Leaf("name", "F")] == WrittenFolder.children;
  }

  /** What the loaded game entry writes: its path and its name. */
  lemma GameWrites()
    ensures Written(Loaded[2], "game", Decl) == [WrittenGame]
  {
    RenderPaths();
    Stems();
    WritesName("A");
    assert CleanFileName(GamePath) == "a";
    assert [PathNode(Loaded[2])] + [Leaf("name", "A")] == WrittenGame.children;
  }

  /** The folder entry matches no old element, so its element is appended. */
  lemma FirstSaveFolder()
    ensures ReconcileOne([GameElement, FolderElement], Loaded[1], Disk, Decl)
      == [GameElement, FolderElement, WrittenFolder]
  {
    FolderWrites();
    FolderElementPath();
    assert !Matches(FolderElement, "folder", StemFolderPath, Disk);
    ReconcileOneNone(GameElement, FolderElement, Loaded[1], Disk, Decl, [WrittenFolder]);
  }

  /** The game entry matches the old game element, the first one. */
  lemma FirstSaveGame()
    ensures ReconcileOne([GameElement, FolderElement, WrittenFolder], Loaded[2], Disk, Decl)
      == [FolderElement, WrittenFolder, WrittenGame]
  {
    GameWrites();
    GameElementPath();
    assert Matches(GameElement, "game", GamePath, Disk);
    ReconcileOneFirst(GameElement, FolderElement, WrittenFolder, Loaded[2], Disk, Decl, [WrittenGame]);
  }

  /**
   * The first save after a load is no round trip: it adds the path text
   * r/foo, which the loaded document did not hold, and drops the game's
   * `developer` child.  A second save of the same tree leaves the document
   * as the first save wrote it.
   */
  lemma FirstSaveIsNoRoundTrip()
    ensures var loaded := Load(Fresh, Document, Disk, Decl);
      && |loaded| == 3
      && Reconcile([GameElement, FolderElement], loaded[1..], Disk, Decl) == FirstSaved
      && ChildText(WrittenFolder, "path") == "r/foo"
      && ChildText(GameElement, "path") != "r/foo" && ChildText(FolderElement, "path") != "r/foo"
      && ChildIndex(GameElement.children, "developer").Some?
      && ChildIndex(WrittenGame.children, "developer").None?
      && Reconcile(FirstSaved, loaded[1..], Disk, Decl) == FirstSaved
  {
    LoadNestedFolder();
    FirstSaveAddsPath();
    SecondSaveKeeps();
  }

  /** The second save removes each written element and writes it again. */
  lemma SecondSaveKeeps()
    ensures Reconcile(FirstSaved, Loaded[1..], Disk, Decl) == FirstSaved
  {
    var files := Loaded[1..];
    assert files[0] == Loaded[1] && files[1] == Loaded[2];
    TwoEntries(FirstSaved, files, Disk, Decl);
    SecondSaveFolder();
    SecondSaveGame();
  }

  /** The folder entry now matches the element written for it. */
  lemma SecondSaveFolder()
    ensures ReconcileOne(FirstSaved, Loaded[1], Disk, Decl) == [FolderElement, WrittenGame, WrittenFolder]
  {
    FolderWrites();
    SecondSaveFolderMatches();
    ReconcileOneSecond(FolderElement, WrittenFolder, WrittenGame, Loaded[1], Disk, Decl, [WrittenFolder]);
  }

  /** The old folder element still stands for no entry; the written one stands for foo. */
  lemma SecondSaveFolderMatches()
    ensures !Matches(FolderElement, "folder", StemFolderPath, Disk)
    ensures Matches(WrittenFolder, "folder", StemFolderPath, Disk)
  {
    FolderElementPath();
    ParseStemFolder();
    assert ChildIndex(WrittenFolder.children, "path") == Some(0);
  }

  /** The game entry matches its written element again. */
  lemma SecondSaveGame()
    ensures ReconcileOne([FolderElement, WrittenGame, WrittenFolder], Loaded[2], Disk, Decl) == FirstSaved
  {
    GameWrites();
    WrittenGameMatches();
    ReconcileOneSecond(FolderElement, WrittenGame, WrittenFolder, Loaded[2], Disk, Decl, [WrittenGame]);
  }

  /** The written game element stands for the game; the folder element does not. */
  lemma WrittenGameMatches()
    ensures !Matches(FolderElement, "game", GamePath, Disk)
    ensures Matches(WrittenGame, "game", GamePath, Disk)
  {
    ParseGame();
    assert ChildIndex(WrittenGame.children, "path") == Some(0);
  }

  // ----- a duplicated element: the second save is not stable

  /** The old document holds the game's element twice. */
  const Duplicated := [GameElement, GameElement]

  /** Reconciling one entry is one turn of the loop. */
  lemma OneEntry(nodes: seq<XmlNode>, file: Entry, fs: FileSystem, decl: seq<MetaDecl>)
    ensures Reconcile(nodes, [file], fs, decl) == ReconcileOne(nodes, file, fs, decl)
  {
    assert [file][..0] == [] && [file][0] == file;
  }

  /** An entry for which the first of two elements stands: only that one goes, and `w` is appended. */
  lemma ReconcileOneHead(x: XmlNode, y: XmlNode, file: Entry, fs: FileSystem, decl: seq<MetaDecl>, w: seq<XmlNode>)
    requires Matches(x, TagOf(file.kind), file.path, fs)
    requires Written(file, TagOf(file.kind), decl) == w
    ensures ReconcileOne([x, y], file, fs, decl) == [y] + w
  {
    assert [x, y][..0] + [x, y][1..] == [y];
  }

  /** Two elements that both stand for the entry at `path` count twice. */
  lemma MatchCountPair(x: XmlNode, y: XmlNode, tag: string, path: Path, fs: FileSystem)
    requires Matches(x, tag, path, fs) && Matches(y, tag, path, fs)
    ensures MatchCount([x, y], tag, path, fs) == 2
  {
    var s := [x, y];
    assert s[..|s| - 1] == [x] && s[|s| - 1] == y;
    assert [x][..0] == [] && [x][0] == x;
    assert MatchCount([x], tag, path, fs) == 1;
  }

  /** Both copies stand for the game. */
  lemma DuplicatedMatchTwice()
    ensures MatchCount(Duplicated, "game", GamePath, Disk) == 2
  {
    GameElementPath();
    assert Matches(GameElement, "game", GamePath, Disk);
    MatchCountPair(GameElement, GameElement, "game", GamePath, Disk);
  }

  /** The first save removes only the first copy (the `break` at line 290) and appends the game's element. */
  lemma DuplicatedFirstSave()
    ensures Reconcile(Duplicated, [Loaded[2]], Disk, Decl) == [GameElement, WrittenGame]
  {
    GameWrites();
    GameElementPath();
    OneEntry(Duplicated, Loaded[2], Disk, Decl);
    ReconcileOneHead(GameElement, GameElement, Loaded[2], Disk, Decl, [WrittenGame]);
  }

  /** The second save removes the copy the first save left, and appends the game's element again. */
  lemma DuplicatedSecondSave()
    ensures Reconcile([GameElement, WrittenGame], [Loaded[2]], Disk, Decl) == [WrittenGame, WrittenGame]
  {
    GameWrites();
    GameElementPath();
    OneEntry([GameElement, WrittenGame], Loaded[2], Disk, Decl);
    ReconcileOneHead(GameElement, WrittenGame, Loaded[2], Disk, Decl, [WrittenGame]);
  }

  /**
   * When an entry stands for two elements of the old document, saving twice
   * does not write what saving once wrote: each save removes only the first
   * element standing for the entry (src/XMLReader.cpp:275-290).  This is why
   * `ReconcileSettles` asks for at most one such element per entry.
   */
  lemma DuplicatedIsUnsettled()
    ensures MatchCount(Duplicated, "game", GamePath, Disk) == 2
    ensures var once := Reconcile(Duplicated, [Loaded[2]], Disk, Decl);
      Reconcile(once, [Loaded[2]], Disk, Decl) != once
  {
    DuplicatedMatchTwice();
    DuplicatedFirstSave();
    DuplicatedSecondSave();
    assert [GameElement, WrittenGame][0] != [WrittenGame, WrittenGame][0];
  }
}
