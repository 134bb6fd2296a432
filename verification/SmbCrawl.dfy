/** The depth-limited recursive listing of `SMBConnector._crawl`. */
module SmbCrawl {
  import opened Wrappers
  import opened Text

  /**
   A directory either lists its entries, fails when queried (and is skipped), or cannot be opened (which aborts
   the crawl).
   */
  datatype Listing = Entries(nodes: seq<Node>) | QueryFails | OpenFails

  datatype Node = File(name: string, modified: string) | Dir(name: string, listing: Listing)

  datatype Config = Config(
    rootPath: string, allowedTypes: seq<string>, maxDepth: int,
    urlPrefix: string,             // "smb://server/share/"
    suffix: string -> string)      // lower-case suffix of a file name

  datatype Doc = Doc(externalId: string, title: string, url: string, modifiedAt: string, fileExtension: string)

  predicate IsDots(name: string) {
    name == "." || name == ".."
  }

  predicate Allowed(cfg: Config, name: string) {
    cfg.allowedTypes == [] || cfg.suffix(name) in cfg.allowedTypes
  }

  function FullPath(path: string, name: string): string {
    LStripChar(path + "/" + name, '/')
  }

  function Describe(cfg: Config, path: string, f: Node): Doc
    requires f.File?
  {
    Doc(path, f.name, cfg.urlPrefix + path, f.modified, cfg.suffix(f.name))
  }

  // ---------------------------------------------------------------- what the crawl collects, in order

  function Docs(cfg: Config, listing: Listing, path: string, depth: int): seq<Doc>
    decreases listing, 1
  {
    if depth > cfg.maxDepth || !listing.Entries? then [] else DocsOf(cfg, listing.nodes, path, depth)
  }

  function DocsOf(cfg: Config, nodes: seq<Node>, path: string, depth: int): seq<Doc>
    decreases nodes, 0
  {
    if nodes == [] then []
    else DocsOf(cfg, nodes[..|nodes| - 1], path, depth) + NodeDocs(cfg, nodes[|nodes| - 1], path, depth)
  }

  function NodeDocs(cfg: Config, n: Node, path: string, depth: int): seq<Doc>
    decreases n, 2
  {
    if IsDots(n.name) then []
    else
      match n
      case Dir(name, listing) => Docs(cfg, listing, FullPath(path, name), depth + 1)
      case File(name, _) => if Allowed(cfg, name) then [Describe(cfg, FullPath(path, name), n)] else []
  }

  /** Some directory that the crawl reaches cannot be opened. */
  predicate Aborts(cfg: Config, listing: Listing, depth: int)
    decreases listing
  {
    depth <= cfg.maxDepth &&
    (listing.OpenFails? ||
     (listing.Entries? && exists i :: 0 <= i < |listing.nodes| && NodeAborts(cfg, listing.nodes[i], depth)))
  }

  predicate NodeAborts(cfg: Config, n: Node, depth: int)
    decreases n
  {
    !IsDots(n.name) && n.Dir? && Aborts(cfg, n.listing, depth + 1)
  }

  lemma NoNodes(cfg: Config, path: string, depth: int)
    ensures DocsOf(cfg, [], path, depth) == []
  {
  }

  lemma NextNode(cfg: Config, nodes: seq<Node>, i: nat, path: string, depth: int)
    requires i < |nodes|
    ensures DocsOf(cfg, nodes[..i + 1], path, depth) ==
      DocsOf(cfg, nodes[..i], path, depth) + NodeDocs(cfg, nodes[i], path, depth)
  {
    assert nodes[..i + 1][..i] == nodes[..i];
  }

  lemma ListedDirectory(cfg: Config, listing: Listing, path: string, depth: int)
    ensures depth > cfg.maxDepth || listing.QueryFails? ==>
      !Aborts(cfg, listing, depth) && Docs(cfg, listing, path, depth) == []
    ensures depth <= cfg.maxDepth && listing.OpenFails? ==> Aborts(cfg, listing, depth)
    ensures depth <= cfg.maxDepth && listing.Entries? ==>
      && (Aborts(cfg, listing, depth) <==>
            exists i :: 0 <= i < |listing.nodes| && NodeAborts(cfg, listing.nodes[i], depth))
      && Docs(cfg, listing, path, depth) == DocsOf(cfg, listing.nodes, path, depth)
  {
  }

  lemma ListedNode(cfg: Config, n: Node, path: string, depth: int)
    ensures IsDots(n.name) ==> NodeDocs(cfg, n, path, depth) == []
    ensures !IsDots(n.name) && n.Dir? ==>
      NodeDocs(cfg, n, path, depth) == Docs(cfg, n.listing, FullPath(path, n.name), depth + 1)
    ensures !IsDots(n.name) && n.File? ==>
      NodeDocs(cfg, n, path, depth) ==
        if Allowed(cfg, n.name) then [Describe(cfg, FullPath(path, n.name), n)] else []
    ensures NodeAborts(cfg, n, depth) <==> !IsDots(n.name) && n.Dir? && Aborts(cfg, n.listing, depth + 1)
  {
    hide IsDots, Allowed, FullPath, Describe, Docs, Aborts;
  }

  class Crawler {
    const cfg: Config
    var docs: seq<Doc>

    constructor (cfg: Config)
      ensures this.cfg == cfg && docs == []
    {
      this.cfg := cfg;
      docs := [];
    }

    method Crawl(listing: Listing, path: string, depth: int) returns (ok: bool)
      modifies this
      ensures ok <==> !Aborts(cfg, listing, depth)
      ensures ok ==> docs == old(docs) + Docs(cfg, listing, path, depth)
      decreases listing
    {
      hide *;
      ListedDirectory(cfg, listing, path, depth);
      if depth > cfg.maxDepth {
        return true;
      }
      match listing
      case OpenFails => return false;
      case QueryFails => return true;
      case Entries(nodes) =>
        NoNodes(cfg, path, depth);
        for i := 0 to |nodes|
          invariant forall j :: 0 <= j < i ==> !NodeAborts(cfg, nodes[j], depth)
          invariant docs == old(docs) + DocsOf(cfg, nodes[..i], path, depth)
        {
          NextNode(cfg, nodes, i, path, depth);
          ListedNode(cfg, nodes[i], path, depth);
          var n := nodes[i];
          if IsDots(n.name) {
            continue;
          }
          var fullPath := FullPath(path, n.name);
          match n {
            case Dir(_, child) =>
              var inner := Crawl(child, fullPath, depth + 1);
              if !inner {
                assert NodeAborts(cfg, nodes[i], depth);
                return false;
              }
            case File(name, _) =>
              if Allowed(cfg, name) {
                docs := docs + [Describe(cfg, fullPath, n)];
              }
          }
        }
        assert nodes[..|nodes|] == nodes;
        return true;
    }
  }

  // ---------------------------------------------------------------- exactly the reachable files

  /** `f` is the file that the names of `route` lead to, through directories that can be listed. */
  ghost predicate FileAt(listing: Listing, route: seq<string>, f: Node)
    decreases route
  {
    listing.Entries? && route != [] && route[0] != "." && route[0] != ".." &&
    exists n :: n in listing.nodes && n.name == route[0] && NodeLeadsTo(n, route, f)
  }

  ghost predicate NodeLeadsTo(n: Node, route: seq<string>, f: Node)
    requires route != []
    decreases route, 0
  {
    if |route| == 1 then n == f && n.File? else n.Dir? && FileAt(n.listing, route[1..], f)
  }

  function PathOf(path: string, route: seq<string>): string
    decreases route
  {
    if route == [] then path else PathOf(FullPath(path, route[0]), route[1..])
  }

  ghost predicate Reached(cfg: Config, listing: Listing, path: string, depth: int, d: Doc) {
    exists route, f :: ReachedBy(cfg, listing, path, depth, d, route, f)
  }

  /** `route` stays within the depth limit and ends at an allowed file that `d` describes. */
  ghost predicate ReachedBy(cfg: Config, listing: Listing, path: string, depth: int, d: Doc, route: seq<string>,
                            f: Node) {
    && FileAt(listing, route, f) && f.File? && |route| <= cfg.maxDepth - depth + 1
    && (cfg.allowedTypes == [] || cfg.suffix(f.name) in cfg.allowedTypes)
    && d.externalId == PathOf(path, route) && d.title == f.name && d.url == cfg.urlPrefix + PathOf(path, route)
    && d.modifiedAt == f.modified && d.fileExtension == cfg.suffix(f.name)
  }

  lemma {:induction false} InDocsOf(cfg: Config, nodes: seq<Node>, path: string, depth: int, d: Doc)
    ensures d in DocsOf(cfg, nodes, path, depth) <==> exists n :: n in nodes && d in NodeDocs(cfg, n, path, depth)
  {
    if nodes != [] {
      var rest, last := nodes[..|nodes| - 1], nodes[|nodes| - 1];
      InDocsOf(cfg, rest, path, depth, d);
      assert nodes == rest + [last];
      if n :| n in nodes && d in NodeDocs(cfg, n, path, depth) {
        assert n in rest || n == last;
      }
      if d in DocsOf(cfg, nodes, path, depth) {
        if d in NodeDocs(cfg, last, path, depth) {
          assert last in nodes;
        } else {
          var n :| n in rest && d in NodeDocs(cfg, n, path, depth);
          assert n in nodes;
        }
      }
    }
  }

  /** The crawl collects exactly the allowed files reached through listable directories within the depth limit. */
  lemma {:induction false} DocsExact(cfg: Config, listing: Listing, path: string, depth: int, d: Doc)
    ensures d in Docs(cfg, listing, path, depth) <==> Reached(cfg, listing, path, depth, d)
    decreases listing
  {
    if depth <= cfg.maxDepth && listing.Entries? {
      InDocsOf(cfg, listing.nodes, path, depth, d);
      if n :| n in listing.nodes && d in NodeDocs(cfg, n, path, depth) {
        NodeToRoute(cfg, listing, path, depth, d, n);
      }
      if route, f :| ReachedBy(cfg, listing, path, depth, d, route, f) {
        RouteToNode(cfg, listing, path, depth, d, route, f);
      }
    }
  }

  lemma {:induction false} NodeToRoute(cfg: Config, listing: Listing, path: string, depth: int, d: Doc, n: Node)
    requires depth <= cfg.maxDepth && listing.Entries?
    requires n in listing.nodes && d in NodeDocs(cfg, n, path, depth)
    ensures Reached(cfg, listing, path, depth, d)
    decreases listing, 0
  {
    match n
    case File(name, _) =>
      assert PathOf(path, [name]) == FullPath(path, name);
      assert NodeLeadsTo(n, [name], n);
      assert ReachedBy(cfg, listing, path, depth, d, [name], n);
    case Dir(name, child) =>
      DocsExact(cfg, child, FullPath(path, name), depth + 1, d);
      var route, f :| ReachedBy(cfg, child, FullPath(path, name), depth + 1, d, route, f);
      var longer := [name] + route;
      assert longer[1..] == route;
      assert NodeLeadsTo(n, longer, f);
      assert ReachedBy(cfg, listing, path, depth, d, longer, f);
  }

  lemma {:induction false} RouteToNode(cfg: Config, listing: Listing, path: string, depth: int, d: Doc,
                                       route: seq<string>, f: Node)
    requires depth <= cfg.maxDepth && listing.Entries?
    requires ReachedBy(cfg, listing, path, depth, d, route, f)
    ensures exists n :: n in listing.nodes && d in NodeDocs(cfg, n, path, depth)
    decreases listing, 0
  {
    var n :| n in listing.nodes && n.name == route[0] && NodeLeadsTo(n, route, f);
    if |route| == 1 {
      assert PathOf(path, route) == FullPath(path, route[0]);
    } else {
      assert ReachedBy(cfg, n.listing, FullPath(path, n.name), depth + 1, d, route[1..], f);
      DocsExact(cfg, n.listing, FullPath(path, n.name), depth + 1, d);
    }
    assert d in NodeDocs(cfg, n, path, depth);
  }

  // ---------------------------------------------------------------- when the crawl fails

  /** The names of `route` lead through listed directories to one whose listing is `end`. */
  ghost predicate DirAt(listing: Listing, route: seq<string>, end: Listing)
    decreases route
  {
    if route == [] then listing == end
    else
      listing.Entries? && route[0] != "." && route[0] != ".." &&
      exists n :: n in listing.nodes && n.name == route[0] && n.Dir? && DirAt(n.listing, route[1..], end)
  }

  /** A directory within the depth limit cannot be opened. */
  ghost predicate Unopened(cfg: Config, listing: Listing, depth: int) {
    exists route :: DirAt(listing, route, OpenFails) && depth + |route| <= cfg.maxDepth
  }

  lemma {:induction false} AbortsExact(cfg: Config, listing: Listing, depth: int)
    ensures Aborts(cfg, listing, depth) <==> Unopened(cfg, listing, depth)
    decreases listing
  {
    if Aborts(cfg, listing, depth) {
      if listing.OpenFails? {
        assert DirAt(listing, [], OpenFails);
      } else {
        var i :| 0 <= i < |listing.nodes| && NodeAborts(cfg, listing.nodes[i], depth);
        var n := listing.nodes[i];
        AbortsExact(cfg, n.listing, depth + 1);
        var route :| DirAt(n.listing, route, OpenFails) && depth + 1 + |route| <= cfg.maxDepth;
        var longer := [n.name] + route;
        assert longer[1..] == route && n in listing.nodes;
        assert DirAt(listing, longer, OpenFails);
      }
    }
    if route :| DirAt(listing, route, OpenFails) && depth + |route| <= cfg.maxDepth {
      if route != [] {
        var n :| n in listing.nodes && n.name == route[0] && n.Dir? && DirAt(n.listing, route[1..], OpenFails);
        AbortsExact(cfg, n.listing, depth + 1);
        assert Unopened(cfg, n.listing, depth + 1);
        var i :| 0 <= i < |listing.nodes| && listing.nodes[i] == n;
        assert NodeAborts(cfg, listing.nodes[i], depth);
      }
    }
  }

  // ---------------------------------------------------------------- distinct paths

  predicate GoodName(name: string) {
    name != "" && '/' !in name
  }

  /** What a file system guarantees: siblings have different names, and a name has no separator. */
  predicate WellNamed(listing: Listing) {
    listing.Entries? ==>
      && (forall i, j :: 0 <= i < j < |listing.nodes| ==> listing.nodes[i].name != listing.nodes[j].name)
      && (forall n :: n in listing.nodes ==> GoodName(n.name) && (n.Dir? ==> WellNamed(n.listing)))
  }

  function Base(path: string): string {
    if path == "" then "" else path + "/"
  }

  lemma FullPathIsBase(path: string, name: string)
    requires GoodName(name) && (path != "" ==> path[0] != '/')
    ensures FullPath(path, name) == Base(path) + name
    ensures FullPath(path, name) != "" && FullPath(path, name)[0] != '/'
  {
    var joined := path + "/" + name;
    assert name[0] in name;
    if path == "" {
      assert joined[0] == '/' && joined[1..] == name;
      assert LStripChar(name, '/') == name;
    } else {
      assert joined[0] == path[0];
    }
  }

  /** `id` is the path of `name` in a directory, or lies below it. */
  ghost predicate Below(id: string, base: string, name: string) {
    exists rest :: id == base + name + rest && (rest == "" || rest[0] == '/')
  }

  lemma BelowOneName(id: string, base: string, n1: string, n2: string)
    requires Below(id, base, n1) && Below(id, base, n2) && GoodName(n1) && GoodName(n2)
    ensures n1 == n2
  {
    var r1 :| id == base + n1 + r1 && (r1 == "" || r1[0] == '/');
    var r2 :| id == base + n2 + r2 && (r2 == "" || r2[0] == '/');
    var tail := id[|base|..];
    assert tail == n1 + r1 && tail == n2 + r2;
    assert forall k :: 0 <= k < |n1| ==> tail[k] == n1[k] && n1[k] in n1;
    assert forall k :: 0 <= k < |n2| ==> tail[k] == n2[k] && n2[k] in n2;
    assert r1 != "" ==> tail[|n1|] == '/';
    assert r2 != "" ==> tail[|n2|] == '/';
    assert n1 == tail[..|n1|] && n2 == tail[..|n2|];
  }

  lemma {:induction false} NodeDocsBelow(cfg: Config, n: Node, path: string, depth: int, d: Doc)
    requires GoodName(n.name) && (n.Dir? ==> WellNamed(n.listing)) && (path != "" ==> path[0] != '/')
    requires d in NodeDocs(cfg, n, path, depth)
    ensures Below(d.externalId, Base(path), n.name)
    decreases n
  {
    FullPathIsBase(path, n.name);
    match n
    case File(name, _) =>
      assert d.externalId == Base(path) + name + "";
    case Dir(name, child) =>
      var inner := FullPath(path, name);
      InDocsOf(cfg, child.nodes, inner, depth + 1, d);
      var m :| m in child.nodes && d in NodeDocs(cfg, m, inner, depth + 1);
      hide Below, FullPath, Base;
      NodeDocsBelow(cfg, m, inner, depth + 1, d);
      BelowChild(d.externalId, path, name, m.name);
  }

  lemma BelowChild(id: string, path: string, name: string, child: string)
    requires GoodName(name) && (path != "" ==> path[0] != '/')
    requires Below(id, Base(FullPath(path, name)), child)
    ensures Below(id, Base(path), name)
  {
    FullPathIsBase(path, name);
    var inner := FullPath(path, name);
    var rest :| id == Base(inner) + child + rest && (rest == "" || rest[0] == '/');
    var longer := "/" + child + rest;
    assert id == Base(path) + name + longer && longer[0] == '/';
  }

  /** The names with a separator between each two. */
  function Slashed(names: seq<string>): string {
    if names == [] then ""
    else if |names| == 1 then names[0]
    else names[0] + "/" + Slashed(names[1..])
  }

  /** The path of a file is that of the root, a separator if the root has a path, and the names of the route. */
  lemma {:induction false} PathIsSlashed(path: string, route: seq<string>)
    requires route != [] && (forall n :: n in route ==> GoodName(n)) && (path != "" ==> path[0] != '/')
    ensures PathOf(path, route) == (if path == "" then "" else path + "/") + Slashed(route)
    decreases |route|
  {
    assert route[0] in route;
    FullPathIsBase(path, route[0]);
    if |route| > 1 {
      PathIsSlashed(FullPath(path, route[0]), route[1..]);
      hide FullPath;
      Concat4(Base(path), route[0], "/", Slashed(route[1..]));
    } else {
      assert route[1..] == [];
    }
  }

  lemma Concat4(a: string, b: string, c: string, d: string)
    ensures (a + b) + c + d == a + (b + c + d)
  {
  }

  lemma {:induction false} RouteIsNamed(listing: Listing, route: seq<string>, f: Node)
    requires FileAt(listing, route, f) && WellNamed(listing)
    ensures (forall n :: n in route ==> GoodName(n)) && route[|route| - 1] == f.name
    decreases route
  {
    var n :| n in listing.nodes && n.name == route[0] && NodeLeadsTo(n, route, f);
    if |route| > 1 {
      RouteIsNamed(n.listing, route[1..], f);
      assert route == [route[0]] + route[1..];
    }
  }

  predicate DistinctPaths(docs: seq<Doc>) {
    forall i, j :: 0 <= i < j < |docs| ==> docs[i].externalId != docs[j].externalId
  }

  /** No two files of a crawl get the same path. */
  lemma {:induction false} PathsDistinct(cfg: Config, listing: Listing, path: string, depth: int)
    requires WellNamed(listing) && (path != "" ==> path[0] != '/')
    ensures DistinctPaths(Docs(cfg, listing, path, depth))
    decreases listing, 1
  {
    if depth <= cfg.maxDepth && listing.Entries? {
      PathsDistinctOf(cfg, listing.nodes, path, depth);
    }
  }

  lemma {:induction false} PathsDistinctOf(cfg: Config, nodes: seq<Node>, path: string, depth: int)
    requires forall i, j :: 0 <= i < j < |nodes| ==> nodes[i].name != nodes[j].name
    requires forall n :: n in nodes ==> GoodName(n.name) && (n.Dir? ==> WellNamed(n.listing))
    requires path != "" ==> path[0] != '/'
    ensures DistinctPaths(DocsOf(cfg, nodes, path, depth))
    decreases nodes, 0
  {
    if nodes != [] {
      var rest, last := nodes[..|nodes| - 1], nodes[|nodes| - 1];
      PathsDistinctOf(cfg, rest, path, depth);
      assert last in nodes;
      FullPathIsBase(path, last.name);
      if last.Dir? {
        PathsDistinct(cfg, last.listing, FullPath(path, last.name), depth + 1);
      }
      var earlier, latest := DocsOf(cfg, rest, path, depth), NodeDocs(cfg, last, path, depth);
      assert DistinctPaths(latest);
      forall i, j | 0 <= i < |earlier| && 0 <= j < |latest|
        ensures earlier[i].externalId != latest[j].externalId
      {
        InDocsOf(cfg, rest, path, depth, earlier[i]);
        var n :| n in rest && earlier[i] in NodeDocs(cfg, n, path, depth);
        assert n in nodes && n.name != last.name;
        NodeDocsBelow(cfg, n, path, depth, earlier[i]);
        NodeDocsBelow(cfg, last, path, depth, latest[j]);
        if earlier[i].externalId == latest[j].externalId {
          BelowOneName(latest[j].externalId, Base(path), n.name, last.name);
        }
      }
    }
  }

  // ---------------------------------------------------------------- the whole share

  lemma {:induction false} NoLeadingSeparator(s: string)
    ensures LStripChar(s, '/') != "" ==> LStripChar(s, '/')[0] != '/'
  {
    if s != "" {
      NoLeadingSeparator(s[1..]);
    }
  }

  /** The listing of a whole share; an abort is the exception that `_crawl` lets through. */
  method ListDocuments(cfg: Config, root: Listing) returns (r: Result<seq<Doc>, ()>)
    ensures r.Err? <==> Unopened(cfg, root, 0)
    ensures r.Ok? ==> forall d :: d in r.value <==> Reached(cfg, root, LStripChar(cfg.rootPath, '/'), 0, d)
    ensures r.Ok? && WellNamed(root) ==> DistinctPaths(r.value)
  {
    AbortsExact(cfg, root, 0);
    var crawler := new Crawler(cfg);
    var rootPath := LStripChar(cfg.rootPath, '/');
    var ok := crawler.Crawl(root, rootPath, 0);
    if !ok {
      return Err(());
    }
    assert crawler.docs == Docs(cfg, root, rootPath, 0);
    forall d ensures d in crawler.docs <==> Reached(cfg, root, rootPath, 0, d) {
      DocsExact(cfg, root, rootPath, 0, d);
    }
    NoLeadingSeparator(cfg.rootPath);
    if WellNamed(root) {
      PathsDistinct(cfg, root, rootPath, 0);
    }
    return Ok(crawler.docs);
  }

  // ---------------------------------------------------------------- the content of one file

  const CHUNK_SIZE: nat := 64 * 1024

  type Bytes = seq<bv8>

  /** One read at an offset: the server sends at most `served(offset)` bytes, and never more than a chunk. */
  function ReadAt(file: Bytes, served: nat -> nat, offset: nat): (chunk: Bytes)
    ensures offset < |file| && served(offset) > 0 ==> chunk != []
    ensures offset <= |file| ==> file[..offset] + chunk <= file
  {
    Take(Take(if offset <= |file| then file[offset..] else [], CHUNK_SIZE), served(offset))
  }

  /** The content is the file up to the first read that the server answers with nothing: all of it, if there is none. */
  method FetchContent(file: Bytes, served: nat -> nat) returns (content: Bytes)
    ensures content <= file
    ensures content == file || served(|content|) == 0
    ensures (forall offset: nat :: offset < |file| ==> served(offset) > 0) ==> content == file
  {
    content := [];
    var offset := 0;
    while true
      invariant offset == |content| <= |file| && content == file[..offset]
      decreases |file| - offset
    {
      var chunk := ReadAt(file, served, offset);
      if chunk == [] {
        break;
      }
      assert (content + chunk)[offset..] == chunk;
      content := content + chunk;
      offset := offset + |chunk|;
    }
  }
}
