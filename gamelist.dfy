/**
 * The gameList document as this core sees it, and the collaborators it
 * calls but does not define: the filesystem queries fs::exists and
 * fs::equivalent, and MetaDataList's reading from and writing to an element.
 */
module Gamelist {
  import opened Options
  import opened Paths

  /** An XML element: its name, its text content and its child elements, in order. */
  datatype XmlNode = XmlNode(name: string, text: string, children: seq<XmlNode>)

  /** The gameList file on disk when it is read: missing, unreadable, or its top-level elements. */
  datatype GamelistFile = Absent | Unparsable | Parsed(top: seq<XmlNode>)

  /** fs::exists and fs::equivalent, supplied by the caller. */
  datatype FileSystem = FileSystem(present: Path -> bool, equivalent: (Path, Path) -> bool)

  /** node.child(name): the position of the first element called `name`. */
  function ChildIndex(nodes: seq<XmlNode>, name: string): (r: Option<nat>)
    ensures r.Some? ==> r.value < |nodes| && nodes[r.value].name == name
    ensures r.Some? ==> forall j :: 0 <= j < r.value ==> nodes[j].name != name
    ensures r.None? ==> forall j :: 0 <= j < |nodes| ==> nodes[j].name != name
  {
    if nodes == [] then None
    else if nodes[0].name == name then Some(0)
    else match ChildIndex(nodes[1..], name)
      case None => None
      case Some(k) => Some(k + 1)
  }

  /** node.child(name).text().get(): the text of the first child called `name`, "" if there is none. */
  function ChildText(node: XmlNode, name: string): string
  {
    match ChildIndex(node.children, name)
    case None => ""
    case Some(k) => node.children[k].text
  }

  /** One declared metadata key and its default value, in the declaration's canonical order. */
  datatype MetaDecl = MetaDecl(key: string, default: string)

  /** The declared default of `key` ("" for an undeclared key). */
  function DefaultOf(decl: seq<MetaDecl>, key: string): string
  {
    if decl == [] then ""
    else if decl[0].key == key then decl[0].default
    else DefaultOf(decl[1..], key)
  }

  /** MetaDataList::get: the stored value, or the declared default. */
  function Get(md: map<string, string>, decl: seq<MetaDecl>, key: string): string
  {
    if key in md then md[key] else DefaultOf(decl, key)
  }

  /** The keys of a declaration. */
  function Keys(decl: seq<MetaDecl>): set<string>
  {
    set i | 0 <= i < |decl| :: decl[i].key
  }

  /**
   * MetaDataList::createFromXML (its body is not part of this model): every
   * declared key takes the text of the element's child of that name, or its
   * default when there is no such child.
   */
  function CreateFromXml(decl: seq<MetaDecl>, node: XmlNode): (md: map<string, string>)
    ensures md.Keys == Keys(decl)
  {
    map k | k in Keys(decl) ::
      if ChildIndex(node.children, k).Some? then ChildText(node, k) else DefaultOf(decl, k)
  }

  /**
   * MetaDataList::appendToXML with defaults ignored (its body is not part of
   * this model): one child per declared key, in declaration order, whose
   * value differs from the key's default.
   */
  function AppendToXml(md: map<string, string>, decl: seq<MetaDecl>): (r: seq<XmlNode>)
    ensures |r| <= |decl|
    ensures forall i :: 0 <= i < |r| ==> r[i].children == [] && exists j :: 0 <= j < |decl| && r[i].name == decl[j].key
  {
    if decl == [] then []
    else
      var d := decl[0];
      var v := if d.key in md then md[d.key] else d.default;
      (if v != d.default then [XmlNode(d.key, v, [])] else []) + AppendToXml(md, decl[1..])
  }
}
