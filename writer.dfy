/**
 * addFileDataNode (src/XMLReader.cpp:199-218) and updateGamelist
 * (src/XMLReader.cpp:220-306): the gameList document is re-read, every
 * entry of the tree replaces the element that stood for it, and everything
 * else in the document is kept as it was.
 */
module Writer {
  import opened Options
  import opened Paths
  import opened Catalog
  import opened Gamelist

  /** The element name used for an entry (line 271). */
  function TagOf(kind: FileType): string
  {
    if kind == Game then "game" else "folder"
  }

  /** The written metadata is only a `name` child equal to the clean file name (lines 207-209). */
  predicate OnlyDefaultName(fields: seq<XmlNode>, file: Entry)
  {
    |fields| == 1 && fields[0].name == "name" && fields[0].text == CleanFileName(file.path)
  }

  /** The `path` child holding the entry's generic path string (line 216). */
  function PathNode(file: Entry): XmlNode
  {
    XmlNode("path", Render(file.path), [])
  }

  /**
   * What addFileDataNode leaves at the end of the parent's children: nothing
   * when only the default name would be written, otherwise one element whose
   * first child is the path, followed by the non-default metadata.
   */
  function Written(file: Entry, tag: string, decl: seq<MetaDecl>): seq<XmlNode>
  {
    var fields := AppendToXml(file.metadata, decl);
    if OnlyDefaultName(fields, file) then [] else [XmlNode(tag, "", [PathNode(file)] + fields)]
  }

  /**
   * An element stands for the entry at `path` (lines 275-286): it has the
   * entry's tag and a `path` child, and that path equals the entry's, or both
   * exist and are equivalent.
   */
  predicate Matches(node: XmlNode, tag: string, path: Path, fs: FileSystem)
  {
    && node.name == tag
    && ChildIndex(node.children, "path").Some?
    && var np := Parse(ChildText(node, "path"));
       np == path || (fs.present(np) && fs.present(path) && fs.equivalent(np, path))
  }

  /** The position of the first element that stands for the entry at `path`. */
  function FirstMatch(nodes: seq<XmlNode>, tag: string, path: Path, fs: FileSystem): (r: Option<nat>)
    ensures r.Some? ==> r.value < |nodes| && Matches(nodes[r.value], tag, path, fs)
    ensures r.Some? ==> forall j :: 0 <= j < r.value ==> !Matches(nodes[j], tag, path, fs)
    ensures r.None? ==> forall j :: 0 <= j < |nodes| ==> !Matches(nodes[j], tag, path, fs)
  {
    if nodes == [] then None
    else if Matches(nodes[0], tag, path, fs) then Some(0)
    else match FirstMatch(nodes[1..], tag, path, fs)
      case None => None
      case Some(k) => Some(k + 1)
  }

  /** The children with the first element standing for `path` removed, if there is one (lines 289-290). */
  function RemoveFirstMatch(nodes: seq<XmlNode>, tag: string, path: Path, fs: FileSystem): seq<XmlNode>
  {
    match FirstMatch(nodes, tag, path, fs)
    case None => nodes
    case Some(i) => nodes[..i] + nodes[i + 1..]
  }

  /** One pass of the loop of updateGamelist (lines 271-295) for `file`. */
  function ReconcileOne(nodes: seq<XmlNode>, file: Entry, fs: FileSystem, decl: seq<MetaDecl>): seq<XmlNode>
  {
    var tag := TagOf(file.kind);
    RemoveFirstMatch(nodes, tag, file.path, fs) + Written(file, tag, decl)
  }

  /** The children of gameList after every entry of `files` is reconciled, in order. */
  function Reconcile(nodes: seq<XmlNode>, files: seq<Entry>, fs: FileSystem, decl: seq<MetaDecl>): seq<XmlNode>
  {
    if files == [] then nodes
    else ReconcileOne(Reconcile(nodes, files[..|files| - 1], fs, decl), files[|files| - 1], fs, decl)
  }

  // ----- what is kept

  /** The elements that do not stand for the entry at `path`, in order. */
  function Unmatched(nodes: seq<XmlNode>, tag: string, path: Path, fs: FileSystem): (r: seq<XmlNode>)
    ensures forall j :: 0 <= j < |r| ==> !Matches(r[j], tag, path, fs)
  {
    if nodes == [] then []
    else
      Unmatched(nodes[..|nodes| - 1], tag, path, fs)
      + (if Matches(nodes[|nodes| - 1], tag, path, fs) then [] else [nodes[|nodes| - 1]])
  }

  lemma {:induction false} UnmatchedConcat(a: seq<XmlNode>, b: seq<XmlNode>, tag: string, path: Path, fs: FileSystem)
    ensures Unmatched(a + b, tag, path, fs) == Unmatched(a, tag, path, fs) + Unmatched(b, tag, path, fs)
    decreases |b|
  {
    if b == [] {
      assert a + b == a;
    } else {
      var b' := b[..|b| - 1];
      assert (a + b)[..|a + b| - 1] == a + b';
      UnmatchedConcat(a, b', tag, path, fs);
    }
  }

  /** The elements standing for the entry at `path`. */
  function MatchCount(nodes: seq<XmlNode>, tag: string, path: Path, fs: FileSystem): nat
  {
    if nodes == [] then 0
    else MatchCount(nodes[..|nodes| - 1], tag, path, fs) + (if Matches(nodes[|nodes| - 1], tag, path, fs) then 1 else 0)
  }

  lemma {:induction false} MatchCountConcat(a: seq<XmlNode>, b: seq<XmlNode>, tag: string, path: Path, fs: FileSystem)
    ensures MatchCount(a + b, tag, path, fs) == MatchCount(a, tag, path, fs) + MatchCount(b, tag, path, fs)
    decreases |b|
  {
    if b == [] {
      assert a + b == a;
    } else {
      var b' := b[..|b| - 1];
      assert (a + b)[..|a + b| - 1] == a + b';
      MatchCountConcat(a, b', tag, path, fs);
    }
  }

  /**
   * Removal takes away at most the first element standing for the entry and
   * nothing else: every other element stays, in order, and the number of
   * elements standing for it drops by one exactly when there was one.
   */
  lemma RemoveFirstMatchKeepsOthers(nodes: seq<XmlNode>, tag: string, path: Path, fs: FileSystem)
    ensures var r := RemoveFirstMatch(nodes, tag, path, fs);
      && Unmatched(r, tag, path, fs) == Unmatched(nodes, tag, path, fs)
      && |r| == (if FirstMatch(nodes, tag, path, fs).Some? then |nodes| - 1 else |nodes|)
      && MatchCount(r, tag, path, fs) ==
           (if MatchCount(nodes, tag, path, fs) == 0 then 0 else MatchCount(nodes, tag, path, fs) - 1)
  {
    match FirstMatch(nodes, tag, path, fs)
    case None =>
      MatchCountNone(nodes, tag, path, fs);
    case Some(i) =>
      RemoveAtKeepsUnmatched(nodes, i, tag, path, fs);
      RemoveAtCount(nodes, i, tag, path, fs);
  }

  lemma RemoveAtKeepsUnmatched(nodes: seq<XmlNode>, i: nat, tag: string, path: Path, fs: FileSystem)
    requires i < |nodes| && Matches(nodes[i], tag, path, fs)
    ensures Unmatched(nodes[..i] + nodes[i + 1..], tag, path, fs) == Unmatched(nodes, tag, path, fs)
  {
    var a, x, b := nodes[..i], nodes[i], nodes[i + 1..];
    assert nodes == (a + [x]) + b;
    assert [x][..0] == [];
    UnmatchedSkip(a, [x], b, tag, path, fs);
  }

  lemma RemoveAtCount(nodes: seq<XmlNode>, i: nat, tag: string, path: Path, fs: FileSystem)
    requires i < |nodes| && Matches(nodes[i], tag, path, fs)
    ensures MatchCount(nodes[..i] + nodes[i + 1..], tag, path, fs) == MatchCount(nodes, tag, path, fs) - 1
  {
    var a, x, b := nodes[..i], nodes[i], nodes[i + 1..];
    assert nodes == a + [x] + b;
    MatchCountConcat(a + [x], b, tag, path, fs);
    MatchCountConcat(a, [x], tag, path, fs);
    MatchCountConcat(a, b, tag, path, fs);
    assert [x][..0] == [];
  }

  lemma {:induction false} MatchCountNone(nodes: seq<XmlNode>, tag: string, path: Path, fs: FileSystem)
    requires forall j :: 0 <= j < |nodes| ==> !Matches(nodes[j], tag, path, fs)
    ensures MatchCount(nodes, tag, path, fs) == 0
  {
    if nodes != [] {
      MatchCountNone(nodes[..|nodes| - 1], tag, path, fs);
    }
  }

  /** Some entry of `files` claims `node`: the element stands for it. */
  predicate ClaimedBy(node: XmlNode, files: seq<Entry>, fs: FileSystem)
  {
    files != [] &&
    (ClaimedBy(node, files[..|files| - 1], fs) ||
     Matches(node, TagOf(files[|files| - 1].kind), files[|files| - 1].path, fs))
  }

  /** The elements no entry of `files` claims, in order. */
  function Unclaimed(nodes: seq<XmlNode>, files: seq<Entry>, fs: FileSystem): seq<XmlNode>
  {
    if nodes == [] then []
    else
      Unclaimed(nodes[..|nodes| - 1], files, fs)
      + (if ClaimedBy(nodes[|nodes| - 1], files, fs) then [] else [nodes[|nodes| - 1]])
  }

  lemma {:induction false} UnclaimedConcat(a: seq<XmlNode>, b: seq<XmlNode>, files: seq<Entry>, fs: FileSystem)
    ensures Unclaimed(a + b, files, fs) == Unclaimed(a, files, fs) + Unclaimed(b, files, fs)
    decreases |b|
  {
    if b == [] {
      assert a + b == a;
    } else {
      var b' := b[..|b| - 1];
      assert (a + b)[..|a + b| - 1] == a + b';
      UnclaimedConcat(a, b', files, fs);
    }
  }

  /** Claimed by the entries plus `f`, seen one entry at a time. */
  lemma {:induction false} UnclaimedSnoc(nodes: seq<XmlNode>, files: seq<Entry>, f: Entry, fs: FileSystem)
    ensures Unclaimed(nodes, files + [f], fs)
         == Unmatched(Unclaimed(nodes, files, fs), TagOf(f.kind), f.path, fs)
  {
    assert (files + [f])[..|files|] == files;
    if nodes != [] {
      var init := nodes[..|nodes| - 1];
      var last := nodes[|nodes| - 1];
      UnclaimedSnoc(init, files, f, fs);
      var u := Unclaimed(init, files, fs);
      if ClaimedBy(last, files, fs) {
        assert Unclaimed(nodes, files, fs) == u + [];
        assert u + [] == u;
      } else {
        assert Unclaimed(nodes, files, fs) == u + [last];
        assert (u + [last])[..|u|] == u;
      }
    }
  }

  /** A written element carries the path it was written for, so it stands for its entry. */
  lemma WrittenStandsForItsEntry(file: Entry, tag: string, decl: seq<MetaDecl>, fs: FileSystem)
    requires WellFormed(file.path)
    ensures var w := Written(file, tag, decl);
      |w| <= 1 && forall j :: 0 <= j < |w| ==>
        w[j].name == tag && w[j].children[0] == PathNode(file) && Matches(w[j], tag, file.path, fs)
  {
    ParseRender(file.path);
  }

  /**
   * Nothing that no current entry claims is touched: the elements of the old
   * document that stand for no entry survive reconciliation, in their order,
   * and every other element of the result stands for some entry.
   */
  lemma {:induction false} ReconcileKeepsUnclaimed(nodes: seq<XmlNode>, files: seq<Entry>, fs: FileSystem, decl: seq<MetaDecl>)
    requires forall i :: 0 <= i < |files| ==> WellFormed(files[i].path)
    ensures Unclaimed(Reconcile(nodes, files, fs, decl), files, fs) == Unclaimed(nodes, files, fs)
  {
    if files != [] {
      var init := files[..|files| - 1];
      var f := files[|files| - 1];
      assert files == init + [f];
      var tag := TagOf(f.kind);
      ReconcileKeepsUnclaimed(nodes, init, fs, decl);
      var before := Reconcile(nodes, init, fs, decl);
      var removed := RemoveFirstMatch(before, tag, f.path, fs);
      var w := Written(f, tag, decl);
      UnclaimedConcat(removed, w, files, fs);
      UnclaimedSnoc(removed, init, f, fs);
      UnclaimedSnoc(before, init, f, fs);
      UnclaimedSnoc(nodes, init, f, fs);
      RemoveFirstMatchKeepsOthers(before, tag, f.path, fs);
      RemoveFirstMatchUnclaimed(before, init, tag, f.path, fs);
      WrittenStandsForItsEntry(f, tag, decl, fs);
      WrittenIsClaimed(w, files, fs);
    }
  }

  /** Removing an element that stands for `path` commutes with the filter by earlier entries. */
  lemma RemoveFirstMatchUnclaimed(nodes: seq<XmlNode>, files: seq<Entry>, tag: string, path: Path, fs: FileSystem)
    ensures Unmatched(Unclaimed(RemoveFirstMatch(nodes, tag, path, fs), files, fs), tag, path, fs)
         == Unmatched(Unclaimed(nodes, files, fs), tag, path, fs)
  {
    match FirstMatch(nodes, tag, path, fs)
    case None =>
    case Some(i) =>
      var a, x, b := nodes[..i], nodes[i], nodes[i + 1..];
      assert nodes == (a + [x]) + b;
      assert RemoveFirstMatch(nodes, tag, path, fs) == a + b;
      DropMatchingElement(a, x, b, files, tag, path, fs);
  }

  lemma DropMatchingElement(a: seq<XmlNode>, x: XmlNode, b: seq<XmlNode>, files: seq<Entry>, tag: string, path: Path, fs: FileSystem)
    requires Matches(x, tag, path, fs)
    ensures Unmatched(Unclaimed(a + b, files, fs), tag, path, fs)
         == Unmatched(Unclaimed((a + [x]) + b, files, fs), tag, path, fs)
  {
    var ua, ub := Unclaimed(a, files, fs), Unclaimed(b, files, fs);
    var ux := Unclaimed([x], files, fs);
    UnclaimedAround(a, x, b, files, fs);
    UnmatchedOfMatch(x, files, tag, path, fs);
    UnmatchedSkip(ua, ux, ub, tag, path, fs);
  }

  /** A middle part with nothing unmatched can be left out. */
  lemma UnmatchedSkip(a: seq<XmlNode>, x: seq<XmlNode>, b: seq<XmlNode>, tag: string, path: Path, fs: FileSystem)
    requires Unmatched(x, tag, path, fs) == []
    ensures Unmatched((a + x) + b, tag, path, fs) == Unmatched(a + b, tag, path, fs)
  {
    UnmatchedConcat(a + x, b, tag, path, fs);
    UnmatchedConcat(a, x, tag, path, fs);
    UnmatchedConcat(a, b, tag, path, fs);
    assert Unmatched(a, tag, path, fs) + [] == Unmatched(a, tag, path, fs);
  }

  lemma UnclaimedAround(a: seq<XmlNode>, x: XmlNode, b: seq<XmlNode>, files: seq<Entry>, fs: FileSystem)
    ensures Unclaimed((a + [x]) + b, files, fs)
         == (Unclaimed(a, files, fs) + Unclaimed([x], files, fs)) + Unclaimed(b, files, fs)
    ensures Unclaimed(a + b, files, fs) == Unclaimed(a, files, fs) + Unclaimed(b, files, fs)
  {
    UnclaimedConcat(a + [x], b, files, fs);
    UnclaimedConcat(a, [x], files, fs);
    UnclaimedConcat(a, b, files, fs);
  }

  /** An element standing for the entry leaves nothing unmatched, whether it is claimed or not. */
  lemma UnmatchedOfMatch(x: XmlNode, files: seq<Entry>, tag: string, path: Path, fs: FileSystem)
    requires Matches(x, tag, path, fs)
    ensures Unmatched(Unclaimed([x], files, fs), tag, path, fs) == []
  {
    assert [x][..0] == [];
  }

  lemma WrittenIsClaimed(w: seq<XmlNode>, files: seq<Entry>, fs: FileSystem)
    requires files != [] && |w| <= 1
    requires forall j :: 0 <= j < |w| ==>
      Matches(w[j], TagOf(files[|files| - 1].kind), files[|files| - 1].path, fs)
    ensures Unclaimed(w, files, fs) == []
  {
    if w != [] {
      assert w[..0] == [];
    }
  }

  // ----- what is added, and a second save

  /** No element of `s` stands for the entry at `path`. */
  predicate NoneMatch(s: seq<XmlNode>, tag: string, path: Path, fs: FileSystem)
  {
    forall k :: 0 <= k < |s| ==> !Matches(s[k], tag, path, fs)
  }

  /** The elements addFileDataNode appends for each entry, one sequence per entry. */
  function WrittenEach(files: seq<Entry>, decl: seq<MetaDecl>): seq<seq<XmlNode>>
  {
    seq(|files|, i requires 0 <= i < |files| => Written(files[i], TagOf(files[i].kind), decl))
  }

  function Flatten<T>(ws: seq<seq<T>>): seq<T>
  {
    if ws == [] then [] else ws[0] + Flatten(ws[1..])
  }

  /** The elements addFileDataNode appends for each entry, in the order of the entries. */
  function AllWritten(files: seq<Entry>, decl: seq<MetaDecl>): seq<XmlNode>
  {
    Flatten(WrittenEach(files, decl))
  }

  /** The old elements left after each entry in turn removed the first element standing for it. */
  function Survivors(nodes: seq<XmlNode>, files: seq<Entry>, fs: FileSystem): seq<XmlNode>
  {
    if files == [] then nodes
    else
      var f := files[|files| - 1];
      RemoveFirstMatch(Survivors(nodes, files[..|files| - 1], fs), TagOf(f.kind), f.path, fs)
  }

  /** No entry's written element stands for a later entry. */
  predicate LaterIgnoreWritten(files: seq<Entry>, fs: FileSystem, decl: seq<MetaDecl>)
  {
    forall i, j :: 0 <= i < j < |files| ==>
      NoneMatch(Written(files[i], TagOf(files[i].kind), decl), TagOf(files[j].kind), files[j].path, fs)
  }

  /** No entry's written element stands for any other entry. */
  predicate WrittenApart(files: seq<Entry>, fs: FileSystem, decl: seq<MetaDecl>)
  {
    forall i, j :: 0 <= i < |files| && 0 <= j < |files| && i != j ==>
      NoneMatch(Written(files[i], TagOf(files[i].kind), decl), TagOf(files[j].kind), files[j].path, fs)
  }

  /**
   * What the loop of updateGamelist adds: the old elements that survive,
   * in their order, followed by the elements written for the entries, in
   * the order of the entries.  This needs that no entry's written element
   * stands for a later entry, which would otherwise remove it again.
   */
  lemma ReconcileSplits(nodes: seq<XmlNode>, files: seq<Entry>, fs: FileSystem, decl: seq<MetaDecl>)
    requires LaterIgnoreWritten(files, fs, decl)
    ensures Reconcile(nodes, files, fs, decl) == Survivors(nodes, files, fs) + AllWritten(files, decl)
  {
    StepwiseFromLater(files, fs, decl);
    ReconcileSplitsStepwise(nodes, files, fs, decl);
  }

  /** LaterIgnoreWritten, stated one entry at a time. */
  predicate IgnoredStepwise(files: seq<Entry>, fs: FileSystem, decl: seq<MetaDecl>)
    decreases |files|
  {
    files == [] ||
    (IgnoredStepwise(files[..|files| - 1], fs, decl) &&
     NoneMatch(AllWritten(files[..|files| - 1], decl), TagOf(files[|files| - 1].kind), files[|files| - 1].path, fs))
  }

  lemma {:induction false} StepwiseFromLater(files: seq<Entry>, fs: FileSystem, decl: seq<MetaDecl>)
    requires LaterIgnoreWritten(files, fs, decl)
    ensures IgnoredStepwise(files, fs, decl)
  {
    if files != [] {
      LaterIgnoreWrittenInit(files, fs, decl);
      StepwiseFromLater(files[..|files| - 1], fs, decl);
    }
  }

  lemma {:induction false} ReconcileSplitsStepwise(nodes: seq<XmlNode>, files: seq<Entry>, fs: FileSystem, decl: seq<MetaDecl>)
    requires IgnoredStepwise(files, fs, decl)
    ensures Reconcile(nodes, files, fs, decl) == Survivors(nodes, files, fs) + AllWritten(files, decl)
  {
    if files != [] {
      var init := files[..|files| - 1];
      var f := files[|files| - 1];
      var tag := TagOf(f.kind);
      ReconcileSplitsStepwise(nodes, init, fs, decl);
      var s0 := Survivors(nodes, init, fs);
      var aw := AllWritten(init, decl);
      RemoveFirstMatchBefore(s0, aw, tag, f.path, fs);
      AllWrittenLast(files, decl);
    }
  }

  lemma AllWrittenLast(files: seq<Entry>, decl: seq<MetaDecl>)
    requires files != []
    ensures AllWritten(files, decl)
         == AllWritten(files[..|files| - 1], decl) + Written(files[|files| - 1], TagOf(files[|files| - 1].kind), decl)
  {
    var ws := WrittenEach(files, decl);
    assert ws[..|ws| - 1] == WrittenEach(files[..|files| - 1], decl);
    FlattenLast(ws);
  }

  lemma AllWrittenHead(files: seq<Entry>, m: nat, decl: seq<MetaDecl>)
    requires m < |files|
    ensures AllWritten(files[m..], decl) == Written(files[m], TagOf(files[m].kind), decl) + AllWritten(files[m + 1..], decl)
  {
    var ws := WrittenEach(files[m..], decl);
    assert ws[1..] == WrittenEach(files[m + 1..], decl);
  }

  lemma {:induction false} FlattenLast<T>(ws: seq<seq<T>>)
    requires ws != []
    ensures Flatten(ws) == Flatten(ws[..|ws| - 1]) + ws[|ws| - 1]
  {
    var n := |ws|;
    if n == 1 {
      assert ws[..0] == [] && ws[1..] == [];
    } else {
      var tail := ws[1..];
      FlattenLast(tail);
      var init := ws[..n - 1];
      assert tail[..n - 2] == init[1..] && tail[n - 2] == ws[n - 1];
      assert init[0] == ws[0];
    }
  }

  lemma {:induction false} FlattenNoneMatch(ws: seq<seq<XmlNode>>, tag: string, path: Path, fs: FileSystem)
    requires forall i :: 0 <= i < |ws| ==> NoneMatch(ws[i], tag, path, fs)
    ensures NoneMatch(Flatten(ws), tag, path, fs)
  {
    if ws != [] {
      assert forall i :: 0 <= i < |ws[1..]| ==> ws[1..][i] == ws[i + 1];
      FlattenNoneMatch(ws[1..], tag, path, fs);
    }
  }

  /** The hypothesis holds of every prefix, and the last entry ignores all earlier written elements. */
  lemma LaterIgnoreWrittenInit(files: seq<Entry>, fs: FileSystem, decl: seq<MetaDecl>)
    requires files != [] && LaterIgnoreWritten(files, fs, decl)
    ensures LaterIgnoreWritten(files[..|files| - 1], fs, decl)
    ensures NoneMatch(AllWritten(files[..|files| - 1], decl), TagOf(files[|files| - 1].kind), files[|files| - 1].path, fs)
  {
    var init := files[..|files| - 1];
    var f := files[|files| - 1];
    forall i, j | 0 <= i < j < |init|
      ensures NoneMatch(Written(init[i], TagOf(init[i].kind), decl), TagOf(init[j].kind), init[j].path, fs)
    {
      assert init[i] == files[i] && init[j] == files[j];
    }
    forall i | 0 <= i < |init|
      ensures NoneMatch(Written(init[i], TagOf(init[i].kind), decl), TagOf(f.kind), f.path, fs)
    {
      assert init[i] == files[i];
    }
    AllWrittenNoneMatch(init, decl, TagOf(f.kind), f.path, fs);
  }

  lemma AllWrittenNoneMatch(files: seq<Entry>, decl: seq<MetaDecl>, tag: string, path: Path, fs: FileSystem)
    requires forall i :: 0 <= i < |files| ==> NoneMatch(Written(files[i], TagOf(files[i].kind), decl), tag, path, fs)
    ensures NoneMatch(AllWritten(files, decl), tag, path, fs)
  {
    FlattenNoneMatch(WrittenEach(files, decl), tag, path, fs);
  }

  /** Removal looks past a tail with nothing standing for the entry. */
  lemma RemoveFirstMatchBefore(a: seq<XmlNode>, b: seq<XmlNode>, tag: string, path: Path, fs: FileSystem)
    requires NoneMatch(b, tag, path, fs)
    ensures RemoveFirstMatch(a + b, tag, path, fs) == RemoveFirstMatch(a, tag, path, fs) + b
  {
    match FirstMatch(a, tag, path, fs)
    case None =>
      FirstMatchUnique(a + b, tag, path, fs, None);
    case Some(i) =>
      FirstMatchUnique(a + b, tag, path, fs, Some(i));
      CutBefore(a, b, i);
  }

  /** Cutting position `i` of `a` out of `a + b` leaves `b` whole. */
  lemma CutBefore<T>(a: seq<T>, b: seq<T>, i: nat)
    requires i < |a|
    ensures (a + b)[..i] + (a + b)[i + 1..] == (a[..i] + a[i + 1..]) + b
  {
    assert (a + b)[..i] == a[..i];
    assert (a + b)[i + 1..] == a[i + 1..] + b;
  }

  /** Removal skips a head with nothing standing for the entry. */
  lemma RemoveFirstMatchAfter(a: seq<XmlNode>, b: seq<XmlNode>, tag: string, path: Path, fs: FileSystem)
    requires NoneMatch(a, tag, path, fs)
    ensures RemoveFirstMatch(a + b, tag, path, fs) == a + RemoveFirstMatch(b, tag, path, fs)
  {
    FirstMatchShifted(a, b, tag, path, fs);
    match FirstMatch(b, tag, path, fs)
    case None =>
    case Some(i) =>
      CutBehind(a, b, i);
  }

  /** Behind a head with nothing standing for the entry, the first match moves by the head's length. */
  lemma {:induction false} FirstMatchShifted(a: seq<XmlNode>, b: seq<XmlNode>, tag: string, path: Path, fs: FileSystem)
    requires NoneMatch(a, tag, path, fs)
    ensures FirstMatch(a + b, tag, path, fs)
         == (if FirstMatch(b, tag, path, fs).None? then None else Some(|a| + FirstMatch(b, tag, path, fs).value))
  {
    if a == [] {
      assert a + b == b;
    } else {
      assert !Matches(a[0], tag, path, fs);
      assert (a + b)[0] == a[0];
      assert (a + b)[1..] == a[1..] + b;
      assert NoneMatch(a[1..], tag, path, fs) by {
        assert forall k :: 0 <= k < |a| - 1 ==> a[1..][k] == a[k + 1];
      }
      FirstMatchShifted(a[1..], b, tag, path, fs);
    }
  }

  /** Cutting position `|a| + i` out of `a + b` cuts position `i` out of `b`. */
  lemma CutBehind<T>(a: seq<T>, b: seq<T>, i: nat)
    requires i < |b|
    ensures (a + b)[..|a| + i] + (a + b)[|a| + i + 1..] == a + (b[..i] + b[i + 1..])
  {
    assert (a + b)[..|a| + i] == a + b[..i];
    assert (a + b)[|a| + i + 1..] == b[i + 1..];
  }

  /**
   * Only elements some entry claims are removed: the survivors keep every
   * element that stands for no entry of `all`, in order, whenever the
   * removing entries are among `all`.
   */
  lemma {:induction false} SurvivorsKeepUnclaimed(nodes: seq<XmlNode>, files: seq<Entry>, all: seq<Entry>, fs: FileSystem)
    requires forall i :: 0 <= i < |files| ==> files[i] in all
    ensures Unclaimed(Survivors(nodes, files, fs), all, fs) == Unclaimed(nodes, all, fs)
  {
    if files != [] {
      var init := files[..|files| - 1];
      var f := files[|files| - 1];
      assert forall i :: 0 <= i < |init| ==> init[i] == files[i];
      SurvivorsKeepUnclaimed(nodes, init, all, fs);
      var s0 := Survivors(nodes, init, fs);
      match FirstMatch(s0, TagOf(f.kind), f.path, fs)
      case None =>
      case Some(i) =>
        ClaimedByIn(s0[i], all, f, fs);
        RemoveClaimed(s0, i, all, fs);
    }
  }

  lemma RemoveClaimed(s: seq<XmlNode>, i: nat, all: seq<Entry>, fs: FileSystem)
    requires i < |s| && ClaimedBy(s[i], all, fs)
    ensures Unclaimed(s[..i] + s[i + 1..], all, fs) == Unclaimed(s, all, fs)
  {
    var a, x, b := s[..i], s[i], s[i + 1..];
    assert s == (a + [x]) + b;
    assert [x][..0] == [];
    UnclaimedAround(a, x, b, all, fs);
  }

  /** An element standing for a member of `files` is claimed by `files`. */
  lemma {:induction false} ClaimedByIn(x: XmlNode, files: seq<Entry>, f: Entry, fs: FileSystem)
    requires f in files && Matches(x, TagOf(f.kind), f.path, fs)
    ensures ClaimedBy(x, files, fs)
  {
    var init := files[..|files| - 1];
    if f != files[|files| - 1] {
      assert files == init + [files[|files| - 1]];
      ClaimedByIn(x, init, f, fs);
    }
  }

  /** Removal never adds an element standing for any entry. */
  lemma RemoveFirstMatchCount(s: seq<XmlNode>, tag': string, path': Path, tag: string, path: Path, fs: FileSystem)
    ensures MatchCount(RemoveFirstMatch(s, tag', path', fs), tag, path, fs) <= MatchCount(s, tag, path, fs)
  {
    match FirstMatch(s, tag', path', fs)
    case None =>
    case Some(i) =>
      RemoveAtCountBound(s, i, tag, path, fs);
  }

  lemma RemoveAtCountBound(s: seq<XmlNode>, i: nat, tag: string, path: Path, fs: FileSystem)
    requires i < |s|
    ensures MatchCount(s[..i] + s[i + 1..], tag, path, fs) <= MatchCount(s, tag, path, fs)
  {
    var a, x, b := s[..i], s[i], s[i + 1..];
    assert s == (a + [x]) + b;
    MatchCountConcat(a + [x], b, tag, path, fs);
    MatchCountConcat(a, [x], tag, path, fs);
    MatchCountConcat(a, b, tag, path, fs);
  }

  lemma {:induction false} SurvivorsCount(nodes: seq<XmlNode>, files: seq<Entry>, tag: string, path: Path, fs: FileSystem)
    ensures MatchCount(Survivors(nodes, files, fs), tag, path, fs) <= MatchCount(nodes, tag, path, fs)
  {
    if files != [] {
      var f := files[|files| - 1];
      SurvivorsCount(nodes, files[..|files| - 1], tag, path, fs);
      RemoveFirstMatchCount(Survivors(nodes, files[..|files| - 1], fs), TagOf(f.kind), f.path, tag, path, fs);
    }
  }

  lemma {:induction false} MatchCountZero(s: seq<XmlNode>, tag: string, path: Path, fs: FileSystem)
    requires MatchCount(s, tag, path, fs) == 0
    ensures NoneMatch(s, tag, path, fs)
  {
    if s != [] {
      MatchCountZero(s[..|s| - 1], tag, path, fs);
      assert forall k :: 0 <= k < |s| - 1 ==> s[..|s| - 1][k] == s[k];
    }
  }

  /**
   * When each entry stands for at most one old element, no survivor stands
   * for any entry: every old element an entry claims was replaced.
   */
  lemma {:induction false} SurvivorsUnclaimedByAll(nodes: seq<XmlNode>, files: seq<Entry>, fs: FileSystem)
    requires forall j :: 0 <= j < |files| ==> MatchCount(nodes, TagOf(files[j].kind), files[j].path, fs) <= 1
    ensures forall j :: 0 <= j < |files| ==> NoneMatch(Survivors(nodes, files, fs), TagOf(files[j].kind), files[j].path, fs)
  {
    if files != [] {
      var init := files[..|files| - 1];
      var f := files[|files| - 1];
      forall j | 0 <= j < |init|
        ensures MatchCount(nodes, TagOf(init[j].kind), init[j].path, fs) <= 1
      {
        assert init[j] == files[j];
      }
      SurvivorsUnclaimedByAll(nodes, init, fs);
      var s0 := Survivors(nodes, init, fs);
      forall j | 0 <= j < |init|
        ensures NoneMatch(s0, TagOf(files[j].kind), files[j].path, fs)
      {
        assert init[j] == files[j];
      }
      SurvivorsCount(nodes, init, TagOf(f.kind), f.path, fs);
      UnclaimedByAllStep(s0, files, fs);
    }
  }

  /** The step of SurvivorsUnclaimedByAll: the last entry clears its single match. */
  lemma UnclaimedByAllStep(s0: seq<XmlNode>, files: seq<Entry>, fs: FileSystem)
    requires files != []
    requires forall j :: 0 <= j < |files| - 1 ==> NoneMatch(s0, TagOf(files[j].kind), files[j].path, fs)
    requires MatchCount(s0, TagOf(files[|files| - 1].kind), files[|files| - 1].path, fs) <= 1
    ensures var f := files[|files| - 1];
      forall j :: 0 <= j < |files| ==>
        NoneMatch(RemoveFirstMatch(s0, TagOf(f.kind), f.path, fs), TagOf(files[j].kind), files[j].path, fs)
  {
    var f := files[|files| - 1];
    forall j | 0 <= j < |files|
      ensures NoneMatch(RemoveFirstMatch(s0, TagOf(f.kind), f.path, fs), TagOf(files[j].kind), files[j].path, fs)
    {
      if j < |files| - 1 {
        StaysUnmatched(s0, TagOf(f.kind), f.path, TagOf(files[j].kind), files[j].path, fs);
      } else {
        RemovalClearsSingle(s0, TagOf(f.kind), f.path, fs);
      }
    }
  }

  lemma StaysUnmatched(s: seq<XmlNode>, tag': string, path': Path, tag: string, path: Path, fs: FileSystem)
    requires NoneMatch(s, tag, path, fs)
    ensures NoneMatch(RemoveFirstMatch(s, tag', path', fs), tag, path, fs)
  {
    MatchCountNone(s, tag, path, fs);
    RemoveFirstMatchCount(s, tag', path', tag, path, fs);
    MatchCountZero(RemoveFirstMatch(s, tag', path', fs), tag, path, fs);
  }

  lemma RemovalClearsSingle(s: seq<XmlNode>, tag: string, path: Path, fs: FileSystem)
    requires MatchCount(s, tag, path, fs) <= 1
    ensures NoneMatch(RemoveFirstMatch(s, tag, path, fs), tag, path, fs)
  {
    RemoveFirstMatchKeepsOthers(s, tag, path, fs);
    MatchCountZero(RemoveFirstMatch(s, tag, path, fs), tag, path, fs);
  }

  /**
   * The second pass over a document that is already the survivors followed
   * by the written elements: after the first `k` entries, their written
   * elements are gone and nothing else changed.
   */
  lemma {:induction false} SecondPass(kept: seq<XmlNode>, files: seq<Entry>, k: nat, fs: FileSystem, decl: seq<MetaDecl>)
    requires k <= |files|
    requires WrittenApart(files, fs, decl)
    requires forall j :: 0 <= j < |files| ==> WellFormed(files[j].path)
    requires forall j :: 0 <= j < |files| ==> NoneMatch(kept, TagOf(files[j].kind), files[j].path, fs)
    ensures Survivors(kept + AllWritten(files, decl), files[..k], fs) == kept + AllWritten(files[k..], decl)
    decreases k
  {
    if k == 0 {
      assert files[..0] == [] && files[0..] == files;
    } else {
      var m := k - 1;
      var f := files[m];
      var tag := TagOf(f.kind);
      SecondPass(kept, files, m, fs, decl);
      assert files[..k][..m] == files[..m] && files[..k][m] == f;
      var w := Written(f, tag, decl);
      var rest := AllWritten(files[k..], decl);
      AllWrittenHead(files, m, decl);
      if w == [] {
        forall i | 0 <= i < |files[k..]|
          ensures NoneMatch(Written(files[k..][i], TagOf(files[k..][i].kind), decl), tag, f.path, fs)
        {
          assert files[k..][i] == files[k + i];
        }
        AllWrittenNoneMatch(files[k..], decl, tag, f.path, fs);
      }
      WrittenStandsForItsEntry(f, tag, decl, fs);
      PassStep(kept, w, rest, tag, f.path, fs);
    }
  }

  /** One entry of the second pass removes exactly its own written element `w`, if it has one. */
  lemma PassStep(kept: seq<XmlNode>, w: seq<XmlNode>, rest: seq<XmlNode>, tag: string, path: Path, fs: FileSystem)
    requires |w| <= 1 && forall j :: 0 <= j < |w| ==> Matches(w[j], tag, path, fs)
    requires NoneMatch(kept, tag, path, fs)
    requires w == [] ==> NoneMatch(rest, tag, path, fs)
    ensures RemoveFirstMatch(kept + (w + rest), tag, path, fs) == kept + rest
  {
    RemoveFirstMatchAfter(kept, w + rest, tag, path, fs);
    if w == [] {
      assert w + rest == rest;
      RemoveNothing(rest, tag, path, fs);
    } else {
      assert w + rest == [w[0]] + rest;
      RemoveHead(w[0], rest, tag, path, fs);
    }
  }

  lemma RemoveNothing(s: seq<XmlNode>, tag: string, path: Path, fs: FileSystem)
    requires NoneMatch(s, tag, path, fs)
    ensures RemoveFirstMatch(s, tag, path, fs) == s
  {
    FirstMatchUnique(s, tag, path, fs, None);
  }

  lemma RemoveHead(x: XmlNode, s: seq<XmlNode>, tag: string, path: Path, fs: FileSystem)
    requires Matches(x, tag, path, fs)
    ensures RemoveFirstMatch([x] + s, tag, path, fs) == s
  {
    assert ([x] + s)[0] == x;
    FirstMatchUnique([x] + s, tag, path, fs, Some(0));
    assert ([x] + s)[1..] == s;
  }

  /**
   * Saving the same tree twice writes the same document as saving it once,
   * provided each entry stands for at most one element of the old document,
   * no entry's written element stands for another entry, and the entries'
   * paths are in the normal form Parse and Render agree on.
   */
  lemma ReconcileSettles(nodes: seq<XmlNode>, files: seq<Entry>, fs: FileSystem, decl: seq<MetaDecl>)
    requires WrittenApart(files, fs, decl)
    requires forall j :: 0 <= j < |files| ==> WellFormed(files[j].path)
    requires forall j :: 0 <= j < |files| ==> MatchCount(nodes, TagOf(files[j].kind), files[j].path, fs) <= 1
    ensures Reconcile(Reconcile(nodes, files, fs, decl), files, fs, decl) == Reconcile(nodes, files, fs, decl)
  {
    var once := Reconcile(nodes, files, fs, decl);
    var kept := Survivors(nodes, files, fs);
    ReconcileSplits(nodes, files, fs, decl);
    ReconcileSplits(once, files, fs, decl);
    SurvivorsUnclaimedByAll(nodes, files, fs);
    SecondPass(kept, files, |files|, fs, decl);
    assert files[..|files|] == files && files[|files|..] == [];
    assert kept + [] == kept;
  }

  // ----- default elision

  lemma {:induction false} AppendToXmlOnlyName(md: map<string, string>, decl: seq<MetaDecl>, d: MetaDecl, i: nat)
    requires i < |decl| && decl[i] == d && d.key == "name"
    requires forall j :: 0 <= j < |decl| && j != i ==> decl[j].key != "name"
    requires forall j :: 0 <= j < |decl| && j != i && decl[j].key in md ==> md[decl[j].key] == decl[j].default
    requires "name" in md && md["name"] != d.default
    ensures AppendToXml(md, decl) == [XmlNode("name", md["name"], [])]
  {
    if i == 0 {
      AppendToXmlNothing(md, decl[1..]);
    } else {
      AppendToXmlOnlyName(md, decl[1..], d, i - 1);
    }
  }

  lemma {:induction false} AppendToXmlNothing(md: map<string, string>, decl: seq<MetaDecl>)
    requires forall j :: 0 <= j < |decl| && decl[j].key in md ==> md[decl[j].key] == decl[j].default
    ensures AppendToXml(md, decl) == []
  {
    if decl != [] {
      AppendToXmlNothing(md, decl[1..]);
    }
  }

  /**
   * Default elision: an entry whose name is the clean file name and whose
   * every other declared field holds its default (stored or absent) leaves
   * no element.  A fresh entry from lookup-or-create is one; so is a loaded
   * entry whose element gave nothing but defaults.  (`name` is declared
   * once, with a different default.)
   */
  lemma DefaultNameOnlyIsElided(file: Entry, tag: string, decl: seq<MetaDecl>, i: nat)
    requires i < |decl| && decl[i].key == "name" && decl[i].default != CleanFileName(file.path)
    requires forall j :: 0 <= j < |decl| && j != i ==> decl[j].key != "name"
    requires "name" in file.metadata && file.metadata["name"] == CleanFileName(file.path)
    requires forall j :: 0 <= j < |decl| && j != i && decl[j].key in file.metadata ==>
      file.metadata[decl[j].key] == decl[j].default
    ensures Written(file, tag, decl) == []
  {
    AppendToXmlOnlyName(file.metadata, decl, decl[i], i);
  }

  lemma {:induction false} AppendToXmlHas(md: map<string, string>, decl: seq<MetaDecl>, i: nat)
    requires i < |decl| && decl[i].key in md && md[decl[i].key] != decl[i].default
    ensures exists j :: 0 <= j < |AppendToXml(md, decl)| && AppendToXml(md, decl)[j] == XmlNode(decl[i].key, md[decl[i].key], [])
  {
    var d := decl[0];
    var v := if d.key in md then md[d.key] else d.default;
    var head := if v != d.default then [XmlNode(d.key, v, [])] else [];
    if i == 0 {
      assert AppendToXml(md, decl)[0] == XmlNode(decl[i].key, md[decl[i].key], []);
    } else {
      AppendToXmlHas(md, decl[1..], i - 1);
      var j :| 0 <= j < |AppendToXml(md, decl[1..])| && AppendToXml(md, decl[1..])[j] == XmlNode(decl[i].key, md[decl[i].key], []);
      assert AppendToXml(md, decl) == head + AppendToXml(md, decl[1..]);
      assert AppendToXml(md, decl)[|head| + j] == XmlNode(decl[i].key, md[decl[i].key], []);
    }
  }

  /**
   * An entry with any non-default metadata other than its name is written:
   * one element whose first child is its path.
   */
  lemma NonDefaultIsWritten(file: Entry, tag: string, decl: seq<MetaDecl>, i: nat)
    requires i < |decl| && decl[i].key != "name"
    requires decl[i].key in file.metadata && file.metadata[decl[i].key] != decl[i].default
    ensures |Written(file, tag, decl)| == 1
    ensures Written(file, tag, decl)[0].children[0] == PathNode(file)
    ensures Written(file, tag, decl)[0].name == tag
  {
    AppendToXmlHas(file.metadata, decl, i);
  }

  // ----- the document, updated in place

  /** An element of the document whose children the source edits in place (the gameList root). */
  class Element {
    var name: string
    var text: string
    var children: seq<XmlNode>

    constructor (node: XmlNode)
      ensures name == node.name && text == node.text && children == node.children
    {
      name, text, children := node.name, node.text, node.children;
    }

    /** The element as a value. */
    function Value(): XmlNode
      reads this
    {
      XmlNode(name, text, children)
    }

    /** xml_node::append_child. */
    method AppendChild(node: XmlNode)
      modifies this
      ensures name == old(name) && text == old(text)
      ensures children == old(children) + [node]
    {
      children := children + [node];
    }

    /** xml_node::remove_child of the child at position `i`. */
    method RemoveChild(i: nat)
      requires i < |children|
      modifies this
      ensures name == old(name) && text == old(text)
      ensures children == old(children)[..i] + old(children)[i + 1..]
    {
      children := children[..i] + children[i + 1..];
    }

    /** Replaces the last child (used for prepend_child on the last child). */
    method ReplaceLast(node: XmlNode)
      requires children != []
      modifies this
      ensures name == old(name) && text == old(text)
      ensures children == old(children)[..|old(children)| - 1] + [node]
    {
      children := children[..|children| - 1] + [node];
    }
  }

  /**
   * addFileDataNode (src/XMLReader.cpp:199-218): appends an element for
   * `file`, writes its non-default metadata, then either removes it again
   * (only the default name was written) or prepends the `path` child.
   */
  method AddFileDataNode(parent: Element, file: Entry, tag: string, decl: seq<MetaDecl>)
    modifies parent
    ensures parent.name == old(parent.name) && parent.text == old(parent.text)
    ensures parent.children == old(parent.children) + Written(file, tag, decl)
  {
    var fields := AppendToXml(file.metadata, decl);
    parent.AppendChild(XmlNode(tag, "", fields));
    var newNode := parent.children[|parent.children| - 1];
    if |newNode.children| == 1 && newNode.children[0].name == "name"
       && newNode.children[0].text == CleanFileName(file.path)
    {
      parent.RemoveChild(|parent.children| - 1);
    } else {
      parent.ReplaceLast(XmlNode(tag, "", [PathNode(file)] + newNode.children));
    }
  }

  /** The scan of lines 275-292: the position of the first element standing for `path`. */
  method FindMatch(nodes: seq<XmlNode>, tag: string, path: Path, fs: FileSystem) returns (found: Option<nat>)
    ensures found.Some? ==> found.value < |nodes| && Matches(nodes[found.value], tag, path, fs)
    ensures found.Some? ==> forall j :: 0 <= j < found.value ==> !Matches(nodes[j], tag, path, fs)
    ensures found.None? ==> forall j :: 0 <= j < |nodes| ==> !Matches(nodes[j], tag, path, fs)
  {
    var i := 0;
    while i < |nodes|
      invariant 0 <= i <= |nodes|
      invariant forall j :: 0 <= j < i ==> !Matches(nodes[j], tag, path, fs)
    {
      if nodes[i].name == tag {
        var pathNode := ChildIndex(nodes[i].children, "path");
        if pathNode.Some? {
          var nodePath := Parse(nodes[i].children[pathNode.value].text);
          if nodePath == path || (fs.present(nodePath) && fs.present(path) && fs.equivalent(nodePath, path)) {
            return Some(i);
          }
        }
      }
      i := i + 1;
    }
    return None;
  }

  /** The outcome of updateGamelist. */
  datatype SaveOutcome =
    | Skipped       // a settings flag disables writing
    | ParseError    // the existing file could not be parsed
    | NoGameList    // the document has no gameList element
    | NoRootFolder  // the system has no root folder
    | Saved(document: seq<XmlNode>)  // the document handed to save_file

  /** The document updateGamelist starts from: the parsed file, or a fresh one with an empty gameList. */
  function StartDocument(file: GamelistFile): Option<seq<XmlNode>>
  {
    match file
    case Absent => Some([XmlNode("gameList", "", [])])
    case Unparsable => None
    case Parsed(top) => Some(top)
  }

  /**
   * updateGamelist (src/XMLReader.cpp:220-306).  The two settings flags are
   * parameters; `files` is the traversal of the tree (None when the system
   * has no root folder).  The document written is the old one with the
   * gameList children reconciled against every entry, in traversal order.
   */
  method UpdateGamelist(disableWrites: bool, ignoreGamelist: bool, file: GamelistFile,
                        files: Option<seq<Entry>>, fs: FileSystem, decl: seq<MetaDecl>)
    returns (r: SaveOutcome)
    ensures disableWrites || ignoreGamelist ==> r == Skipped
    ensures !disableWrites && !ignoreGamelist ==>
      match StartDocument(file)
      case None => r == ParseError
      case Some(doc) =>
        match ChildIndex(doc, "gameList")
        case None => r == NoGameList
        case Some(g) =>
          if files.None? then r == NoRootFolder
          else r == Saved(doc[g := XmlNode(doc[g].name, doc[g].text,
                                           Reconcile(doc[g].children, files.value, fs, decl))])
  {
    if disableWrites || ignoreGamelist {
      return Skipped;
    }
    var start := StartDocument(file);
    if start.None? {
      return ParseError;
    }
    var doc := start.value;
    var g := ChildIndex(doc, "gameList");
    if g.None? {
      return NoGameList;
    }
    if files.None? {
      return NoRootFolder;
    }
    var root := new Element(doc[g.value]);
    ReconcileInPlace(root, files.value, fs, decl);
    return Saved(doc[g.value := root.Value()]);
  }

  /** The loop of updateGamelist (lines 268-298) over the traversal `entries`. */
  method ReconcileInPlace(root: Element, entries: seq<Entry>, fs: FileSystem, decl: seq<MetaDecl>)
    modifies root
    ensures root.name == old(root.name) && root.text == old(root.text)
    ensures root.children == Reconcile(old(root.children), entries, fs, decl)
  {
    var k := 0;
    while k < |entries|
      invariant 0 <= k <= |entries|
      invariant root.name == old(root.name) && root.text == old(root.text)
      invariant root.children == Reconcile(old(root.children), entries[..k], fs, decl)
    {
      ReconcileEntry(root, entries[k], fs, decl);
      ReconcileStep(old(root.children), entries, k, fs, decl);
      k := k + 1;
    }
    assert entries[..k] == entries;
  }

  /** One pass of the loop (lines 271-295): remove the element standing for `entry`, then add its new one. */
  method ReconcileEntry(root: Element, entry: Entry, fs: FileSystem, decl: seq<MetaDecl>)
    modifies root
    ensures root.name == old(root.name) && root.text == old(root.text)
    ensures root.children == ReconcileOne(old(root.children), entry, fs, decl)
  {
    var tag := TagOf(entry.kind);
    var found := FindMatch(root.children, tag, entry.path, fs);
    FirstMatchUnique(root.children, tag, entry.path, fs, found);
    if found.Some? {
      root.RemoveChild(found.value);
    }
    AddFileDataNode(root, entry, tag, decl);
  }

  lemma ReconcileStep(nodes: seq<XmlNode>, entries: seq<Entry>, k: nat, fs: FileSystem, decl: seq<MetaDecl>)
    requires k < |entries|
    ensures Reconcile(nodes, entries[..k + 1], fs, decl)
         == ReconcileOne(Reconcile(nodes, entries[..k], fs, decl), entries[k], fs, decl)
  {
    assert entries[..k + 1][..k] == entries[..k];
  }

  /** The first-match properties determine the position. */
  lemma FirstMatchUnique(nodes: seq<XmlNode>, tag: string, path: Path, fs: FileSystem, found: Option<nat>)
    requires found.Some? ==> found.value < |nodes| && Matches(nodes[found.value], tag, path, fs)
    requires found.Some? ==> forall j :: 0 <= j < found.value ==> !Matches(nodes[j], tag, path, fs)
    requires found.None? ==> forall j :: 0 <= j < |nodes| ==> !Matches(nodes[j], tag, path, fs)
    ensures found == FirstMatch(nodes, tag, path, fs)
  {
  }
}
