/**
 * Filesystem paths as boost::filesystem iterates normalised POSIX paths, and removeCommonPath
 * (src/XMLReader.cpp:11-49): containment of a path in a root directory and
 * the relative path between them.
 */
module Paths {
  import opened Options

  /**
   * A path: its root ("/" for an absolute POSIX path, "" for a relative one)
   * followed by its names.  Canonicalisation is taken as already done: the
   * paths handed to the operations below are canonical.
   */
  datatype Path = Path(root: string, names: seq<string>)

  /** The elements a path iterator visits, root first. */
  function Elements(p: Path): seq<string>
  {
    if p.root == "" then p.names else [p.root] + p.names
  }

  /** path.filename(): the last element, or "" for the empty path. */
  function Filename(p: Path): string
  {
    var e := Elements(p);
    if e == [] then "" else e[|e| - 1]
  }

  /** path / name: appends one name. */
  function Join(p: Path, name: string): (r: Path)
    ensures Filename(r) == name
  {
    Path(p.root, p.names + [name])
  }

  /** A file name without its extension, as path.stem() computes it. */
  function StemName(name: string): string
  {
    if IsDotName(name) then name
    else
      match LastDot(name)
      case None => name
      case Some(k) => name[..k]
  }

  /** The names "." and "..", which have no extension. */
  predicate IsDotName(name: string)
  {
    (|name| == 1 || |name| == 2) && name[0] == '.' && name[|name| - 1] == '.'
  }

  /** Index of the last '.' in a name, if any. */
  function LastDot(name: string): (r: Option<nat>)
    ensures r.Some? ==> r.value < |name|
  {
    if name == [] then None
    else if name[|name| - 1] == '.' then Some(|name| - 1)
    else LastDot(name[..|name| - 1])
  }

  /** LastDot finds the last '.' of the name; None means the name has none. */
  lemma {:induction false} LastDotIsLast(name: string)
    ensures LastDot(name).Some? ==>
      name[LastDot(name).value] == '.' && forall j :: LastDot(name).value < j < |name| ==> name[j] != '.'
    ensures LastDot(name).None? ==> forall j :: 0 <= j < |name| ==> name[j] != '.'
  {
    if name != [] && name[|name| - 1] != '.' {
      LastDotIsLast(name[..|name| - 1]);
    }
  }

  /**
   * path.stem() as a path: the file name of `p` without its extension, a
   * relative path of at most one name; the stem of a bare root is that root.
   * The name is `StemName` of the file name, which cuts at the last '.' as
   * `LastDotIsLast` states.
   */
  function Stem(p: Path): (r: Path)
    ensures |r.names| <= 1
  {
    if p.names == [] then Path(p.root, [])
    else
      var s := StemName(p.names[|p.names| - 1]);
      if s == "" then Path("", []) else Path("", [s])
  }

  /**
   * The default display name of a file: the stem of its file name.  The
   * helper getCleanFileName (which also strips bracketed tags) is not part of
   * this model; this stand-in is used consistently wherever the source uses it.
   */
  function CleanFileName(p: Path): string
  {
    StemName(Filename(p))
  }

  /** `a` is a prefix of `b`. */
  predicate IsPrefix(a: seq<string>, b: seq<string>)
  {
    |a| <= |b| && b[..|a|] == a
  }

  /** The names of `s` with every "." element left out, in order. */
  function DropDots(s: seq<string>): (r: seq<string>)
    ensures |r| <= |s|
  {
    if s == [] then []
    else DropDots(s[..|s| - 1]) + (if s[|s| - 1] == "." then [] else [s[|s| - 1]])
  }

  /** No element of `p` is the current-directory marker. */
  predicate NoDots(p: Path)
  {
    forall i :: 0 <= i < |Elements(p)| ==> Elements(p)[i] != "."
  }

  /**
   * What removeCommonPath decides about canonical paths: the names of `p`
   * below `r` (without "." elements) when `p` lies inside `r`, None otherwise.
   */
  function Relative(p: Path, r: Path): Option<seq<string>>
  {
    if p.root == r.root && IsPrefix(Elements(r), Elements(p))
    then Some(DropDots(Elements(p)[|Elements(r)|..]))
    else None
  }

  /**
   * removeCommonPath: compares the roots, walks the shared prefix of the
   * elements of `path` and `relativeTo`, and when `relativeTo` is used up
   * returns the rest of `path` without "." elements.  Bounds are checked
   * before the elements are compared.
   */
  method RemoveCommonPath(path: Path, relativeTo: Path) returns (result: Path, contains: bool)
    ensures contains <==> path.root == relativeTo.root && IsPrefix(Elements(relativeTo), Elements(path))
    ensures !contains ==> result == path
    ensures contains ==>
      result.root == "" && result.names == DropDots(Elements(path)[|Elements(relativeTo)|..])
    ensures Relative(path, relativeTo) == if contains then Some(result.names) else None
  {
    if path.root != relativeTo.root {
      return path, false;
    }
    var p := Elements(path);
    var r := Elements(relativeTo);
    var i := 0;
    while i < |p| && i < |r| && p[i] == r[i]
      invariant 0 <= i <= |p| && i <= |r|
      invariant p[..i] == r[..i]
    {
      i := i + 1;
    }
    if i < |r| {
      assert i < |p| ==> p[i] != r[i];
      return path, false;
    }
    assert IsPrefix(r, p);
    var names: seq<string> := [];
    var k := i;
    while k < |p|
      invariant i <= k <= |p|
      invariant names == DropDots(p[i..k])
    {
      assert p[i..k + 1][..k - i] == p[i..k];
      if p[k] != "." {
        names := names + [p[k]];
      }
      k := k + 1;
    }
    assert p[i..k] == p[i..];
    return Path("", names), true;
  }

  /** DropDots leaves no "." element. */
  lemma {:induction false} DropDotsDrops(s: seq<string>)
    ensures forall i :: 0 <= i < |DropDots(s)| ==> DropDots(s)[i] != "."
  {
    if s != [] {
      DropDotsDrops(s[..|s| - 1]);
    }
  }

  /** DropDots leaves a sequence without "." elements as it is. */
  lemma {:induction false} DropDotsKeeps(s: seq<string>)
    requires forall i :: 0 <= i < |s| ==> s[i] != "."
    ensures DropDots(s) == s
  {
    if s != [] {
      DropDotsKeeps(s[..|s| - 1]);
    }
  }

  /**
   * Rejoining: for a path without "." elements that lies inside `r`, the
   * elements of `r` followed by the relative names give back the path.
   */
  lemma RelativeRejoins(p: Path, r: Path)
    requires NoDots(p)
    requires Relative(p, r).Some?
    ensures Elements(r) + Relative(p, r).value == Elements(p)
    ensures p.root == r.root
  {
    var e := Elements(p);
    DropDotsKeeps(e[|Elements(r)|..]);
    assert e[..|Elements(r)|] + e[|Elements(r)|..] == e;
  }

  /**
   * Conversely, a path is inside `r` when it extends the elements of `r`
   * under the same root; the relative names are the extension.
   */
  lemma RelativeOfExtension(r: Path, extra: seq<string>)
    requires forall i :: 0 <= i < |extra| ==> extra[i] != "."
    ensures Relative(Path(r.root, r.names + extra), r) == Some(extra)
  {
    var p := Path(r.root, r.names + extra);
    assert Elements(p) == Elements(r) + extra;
    assert Elements(p)[|Elements(r)|..] == extra;
    DropDotsKeeps(extra);
  }

  /** A path is inside itself, and the relative path is empty. */
  lemma RelativeToSelf(p: Path)
    ensures Relative(p, p) == Some([])
  {
  }

  /**
   * Containment fails when the roots differ, or when the root's elements are
   * not a prefix of the path's elements (a shorter path, or one that diverges).
   */
  lemma {:induction false} NotContainedWhenDiverging(p: Path, r: Path, k: nat)
    requires k < |Elements(r)|
    requires k >= |Elements(p)| || Elements(p)[k] != Elements(r)[k]
    ensures Relative(p, r) == None
  {
  }

  // ----- generic_string() and the path parsed back from a document's text

  /** The names joined with '/'. */
  function JoinNames(ns: seq<string>): string
  {
    if ns == [] then ""
    else if |ns| == 1 then ns[0]
    else ns[0] + "/" + JoinNames(ns[1..])
  }

  /** path.generic_string(): the root followed by the names joined by '/'. */
  function Render(p: Path): string
  {
    p.root + JoinNames(p.names)
  }

  /** The longest prefix of `s` without '/'. */
  function Word(s: string): (w: string)
    ensures |w| <= |s| && w == s[..|w|]
    ensures forall i :: 0 <= i < |w| ==> w[i] != '/'
    ensures |w| < |s| ==> s[|w|] == '/'
  {
    if s == [] || s[0] == '/' then "" else [s[0]] + Word(s[1..])
  }

  /** The non-empty '/'-separated pieces of `s`. */
  function Split(s: string): seq<string>
    decreases |s|
  {
    if s == [] then []
    else if s[0] == '/' then Split(s[1..])
    else
      var w := Word(s);
      [w] + Split(s[|w|..])
  }

  /**
   * fs::path constructed from a POSIX path text in normal form: no empty
   * names, no trailing '/' and no leading "//".  Empty pieces are dropped,
   * so a trailing '/' (a "." element in boost) is lost and a leading "//"
   * (a root name in boost) is read as the root "/".
   */
  function Parse(s: string): Path
  {
    if |s| > 0 && s[0] == '/' then Path("/", Split(s[1..])) else Path("", Split(s))
  }

  /** A name that can be written and read back: non-empty and free of '/'. */
  predicate GoodName(n: string)
  {
    n != "" && forall i :: 0 <= i < |n| ==> n[i] != '/'
  }

  /** A POSIX path whose rendering parses back to it. */
  predicate WellFormed(p: Path)
  {
    (p.root == "" || p.root == "/") && forall i :: 0 <= i < |p.names| ==> GoodName(p.names[i])
  }

  lemma {:induction false} WordOfName(a: string, rest: string)
    requires forall i :: 0 <= i < |a| ==> a[i] != '/'
    requires rest == [] || rest[0] == '/'
    ensures Word(a + rest) == a
  {
    if a != [] {
      assert (a + rest)[1..] == a[1..] + rest;
      WordOfName(a[1..], rest);
    } else {
      assert a + rest == rest;
    }
  }

  lemma {:induction false} SplitJoin(ns: seq<string>)
    requires forall i :: 0 <= i < |ns| ==> GoodName(ns[i])
    ensures Split(JoinNames(ns)) == ns
  {
    if |ns| == 1 {
      WordOfName(ns[0], "");
      assert ns[0] + "" == ns[0];
      assert ns[0][|ns[0]|..] == [];
    } else if |ns| > 1 {
      var tail := JoinNames(ns[1..]);
      var s := ns[0] + "/" + tail;
      WordOfName(ns[0], "/" + tail);
      assert s == ns[0] + ("/" + tail);
      assert s[|ns[0]|..] == "/" + tail;
      assert ("/" + tail)[1..] == tail;
      SplitJoin(ns[1..]);
      assert [ns[0]] + ns[1..] == ns;
    }
  }

  /** A well-formed path parses back from its generic string. */
  lemma ParseRender(p: Path)
    requires WellFormed(p)
    ensures Parse(Render(p)) == p
  {
    SplitJoin(p.names);
    var j := JoinNames(p.names);
    if p.root == "/" {
      assert Render(p)[1..] == j;
    } else {
      assert Render(p) == j;
      if p.names != [] {
        assert j[0] == p.names[0][0] by {
          if |p.names| > 1 {
            assert j == p.names[0] + ("/" + JoinNames(p.names[1..]));
          }
        }
      }
    }
  }

  lemma {:induction false} WordTrailingSlash(s: string)
    ensures Word(s + "/") == Word(s)
  {
    if s != [] && s[0] != '/' {
      assert (s + "/")[1..] == s[1..] + "/";
      WordTrailingSlash(s[1..]);
    }
  }

  /** A trailing separator adds no name. */
  lemma {:induction false} SplitTrailingSlash(s: string)
    ensures Split(s + "/") == Split(s)
    decreases |s|
  {
    if s == [] {
      assert Split("/") == Split([]);
    } else if s[0] == '/' {
      assert (s + "/")[1..] == s[1..] + "/";
      SplitTrailingSlash(s[1..]);
    } else {
      WordTrailingSlash(s);
      var w := Word(s);
      assert (s + "/")[|w|..] == s[|w|..] + "/";
      SplitTrailingSlash(s[|w|..]);
    }
  }

  /** The worked example of removeCommonPath's own comment. */
  lemma RelativeExample()
    ensures Relative(Parse("/home/pi/roms/nes/foo/bar.nes"), Parse("/home/pi/roms/nes/"))
         == Some(["foo", "bar.nes"])
  {
    RelativeOfTexts("/home/pi/roms/nes/foo/bar.nes", "/home/pi/roms/nes/");
  }

  /**
   * RelativeExample over its two texts.  This lemma and the two below take
   * their literal text as a parameter pinned by `requires`, so the verifier
   * meets the literal once, as a value, and does not expand it again at
   * every use in the proof.
   */
  lemma RelativeOfTexts(file: string, root: string)
    requires file == "/home/pi/roms/nes/foo/bar.nes" && root == "/home/pi/roms/nes/"
    ensures Relative(Parse(file), Parse(root)) == Some(["foo", "bar.nes"])
  {
    var r := Path("/", ["home", "pi", "roms", "nes"]);
    ParseRootWithSlash(root);
    ParseFileText(file);
    RelativeOfExtension(r, ["foo", "bar.nes"]);
    assert Path(r.root, r.names + ["foo", "bar.nes"]) == Path("/", ["home", "pi", "roms", "nes", "foo", "bar.nes"]);
  }

  lemma RenderExampleRoot()
    ensures Render(Path("/", ["home", "pi", "roms", "nes"])) == "/home/pi/roms/nes"
  {
    assert ["home", "pi", "roms", "nes"][1..] == ["pi", "roms", "nes"];
    assert ["pi", "roms", "nes"][1..] == ["roms", "nes"];
    assert ["roms", "nes"][1..] == ["nes"];
  }

  /**
   * A trailing separator after an absolute path adds no name: Parse takes
   * a directory text written with one in the normal form that
   * canonicalisation gives it.
   */
  lemma ParseTrailingSlash(s: string)
    requires |s| > 0 && s[0] == '/'
    ensures Parse(s + "/") == Parse(s)
  {
    assert (s + "/")[1..] == s[1..] + "/";
    SplitTrailingSlash(s[1..]);
  }

  /** The root text of the example, with its trailing separator. */
  lemma ParseRootWithSlash(s: string)
    requires s == "/home/pi/roms/nes/"
    ensures Parse(s) == Path("/", ["home", "pi", "roms", "nes"])
  {
    var root := Path("/", ["home", "pi", "roms", "nes"]);
    assert GoodName("home") && GoodName("pi") && GoodName("roms") && GoodName("nes");
    ParseRender(root);
    RenderExampleRoot();
    assert s == Render(root) + "/";
    ParseTrailingSlash(Render(root));
  }

  lemma RenderExampleFile()
    ensures Render(Path("/", ["home", "pi", "roms", "nes", "foo", "bar.nes"]))
         == "/home/pi/roms/nes/foo/bar.nes"
  {
    assert ["home", "pi", "roms", "nes", "foo", "bar.nes"][1..] == ["pi", "roms", "nes", "foo", "bar.nes"];
    assert ["pi", "roms", "nes", "foo", "bar.nes"][1..] == ["roms", "nes", "foo", "bar.nes"];
    assert ["roms", "nes", "foo", "bar.nes"][1..] == ["nes", "foo", "bar.nes"];
    assert ["nes", "foo", "bar.nes"][1..] == ["foo", "bar.nes"];
    assert ["foo", "bar.nes"][1..] == ["bar.nes"];
  }

  /** The file text of the example. */
  lemma ParseFileText(s: string)
    requires s == "/home/pi/roms/nes/foo/bar.nes"
    ensures Parse(s) == Path("/", ["home", "pi", "roms", "nes", "foo", "bar.nes"])
  {
    var p := Path("/", ["home", "pi", "roms", "nes", "foo", "bar.nes"]);
    assert GoodName("home") && GoodName("pi") && GoodName("roms") && GoodName("nes");
    assert GoodName("foo") && GoodName("bar.nes");
    ParseRender(p);
    RenderExampleFile();
  }
}
