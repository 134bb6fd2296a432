/** The walk of `SharePointConnector._list_drive_items` over a finite tree of paged folders. */
module SharePointCrawl {
  import opened Wrappers
  import opened Text

  const MAX_FILE_SIZE_BYTES: int := 50 * 1024 * 1024

  datatype FileInfo = FileInfo(id: string, name: Option<string>, size: int, webUrl: string, modifiedAt: string,
                               eTag: string)

  /** An item with the "folder" facet, with the "file" facet, or with neither. */
  datatype Item = SubFolder(folder: Folder) | FileItem(file: FileInfo) | OtherItem

  /** A response of the listing endpoint; a failed request raises. */
  datatype Page = Page(items: seq<Item>) | RequestFails

  /** A folder's pages in the order the next-page links give them. */
  datatype Folder = Folder(pages: seq<Page>)

  // ---------------------------------------------------------------- what the walk collects, in order

  function Files(folder: Folder): seq<FileInfo>
    decreases folder, 0
  {
    FilesOfPages(folder.pages)
  }

  function FilesOfPages(pages: seq<Page>): seq<FileInfo>
    decreases pages, 0
  {
    if pages == [] then [] else FilesOfPages(pages[..|pages| - 1]) + FilesOfPage(pages[|pages| - 1])
  }

  function FilesOfPage(page: Page): seq<FileInfo>
    decreases page, 1
  {
    if page.Page? then FilesOfItems(page.items) else []
  }

  function FilesOfItems(items: seq<Item>): seq<FileInfo>
    decreases items, 0
  {
    if items == [] then [] else FilesOfItems(items[..|items| - 1]) + FilesOfItem(items[|items| - 1])
  }

  function FilesOfItem(item: Item): seq<FileInfo>
    decreases item, 1
  {
    match item
    case SubFolder(folder) => Files(folder)
    case FileItem(file) => [file]
    case OtherItem => []
  }

  /** Every request of the walk succeeds. */
  predicate AllServed(folder: Folder)
    decreases folder, 0
  {
    forall p :: 0 <= p < |folder.pages| ==>
      folder.pages[p].Page? && forall i :: 0 <= i < |folder.pages[p].items| ==> ItemServed(folder.pages[p].items[i])
  }

  predicate ItemServed(item: Item)
    decreases item, 1
  {
    item.SubFolder? ==> AllServed(item.folder)
  }

  predicate PageServed(page: Page) {
    page.Page? && forall i :: 0 <= i < |page.items| ==> ItemServed(page.items[i])
  }

  lemma NothingYet()
    ensures FilesOfPages([]) == [] && FilesOfItems([]) == []
  {
  }

  lemma NextPageFiles(pages: seq<Page>, p: nat)
    requires p < |pages|
    ensures FilesOfPages(pages[..p + 1]) == FilesOfPages(pages[..p]) + FilesOfPage(pages[p])
  {
    assert pages[..p + 1][..p] == pages[..p];
  }

  lemma NextItemFiles(items: seq<Item>, i: nat)
    requires i < |items|
    ensures FilesOfItems(items[..i + 1]) == FilesOfItems(items[..i]) + FilesOfItem(items[i])
  {
    assert items[..i + 1][..i] == items[..i];
  }

  class Walk {
    var items: seq<FileInfo>

    constructor ()
      ensures items == []
    {
      items := [];
    }

    method FetchFolder(folder: Folder) returns (ok: bool)
      modifies this
      ensures ok <==> AllServed(folder)
      ensures ok ==> items == old(items) + Files(folder)
      decreases folder
    {
      NothingYet();
      hide FilesOfPages, FilesOfItems;
      for p := 0 to |folder.pages|
        invariant forall q :: 0 <= q < p ==> PageServed(folder.pages[q])
        invariant items == old(items) + FilesOfPages(folder.pages[..p])
      {
        NextPageFiles(folder.pages, p);
        var data := folder.pages[p];
        if data.RequestFails? {
          return false;
        }
        ghost var before := items;
        for i := 0 to |data.items|
          invariant forall j :: 0 <= j < i ==> ItemServed(data.items[j])
          invariant items == before + FilesOfItems(data.items[..i])
        {
          NextItemFiles(data.items, i);
          match data.items[i]
          case SubFolder(child) =>
            var inner := FetchFolder(child);
            if !inner {
              assert !ItemServed(folder.pages[p].items[i]);
              return false;
            }
          case FileItem(file) => items := items + [file];
          case OtherItem =>
        }
        assert data.items[..|data.items|] == data.items;
      }
      assert folder.pages[..|folder.pages|] == folder.pages;
      return true;
    }
  }

  // ---------------------------------------------------------------- every file once, in depth-first page order

  /** A position on a page of a folder. */
  datatype Position = Position(page: nat, index: nat)

  type Route = seq<Position>

  predicate Earlier(a: Position, b: Position) {
    a.page < b.page || (a.page == b.page && a.index < b.index)
  }

  /** Depth-first order of routes: by the first position in which they differ. */
  predicate Before(a: Route, b: Route) {
    b != [] && (a == [] || Earlier(a[0], b[0]) || (a[0] == b[0] && Before(a[1..], b[1..])))
  }

  predicate HasItem(folder: Folder, at: Position) {
    at.page < |folder.pages| && folder.pages[at.page].Page? && at.index < |folder.pages[at.page].items|
  }

  function ItemAt(folder: Folder, at: Position): Item
    requires HasItem(folder, at)
  {
    folder.pages[at.page].items[at.index]
  }

  /** The route leads through folders to `file`. */
  predicate LeadsTo(folder: Folder, route: Route, file: FileInfo)
    decreases route
  {
    route != [] && HasItem(folder, route[0]) &&
    match ItemAt(folder, route[0])
    case SubFolder(child) => LeadsTo(child, route[1..], file)
    case FileItem(f) => |route| == 1 && f == file
    case OtherItem => false
  }

  /**
   `routes` are the routes to all files whose first position is before `bound`, in order, and `files` what they
   lead to.
   */
  ghost predicate ListsBefore(folder: Folder, bound: Position, routes: seq<Route>, files: seq<FileInfo>) {
    && |routes| == |files|
    && (forall k :: 0 <= k < |routes| ==> LeadsTo(folder, routes[k], files[k]) && Earlier(routes[k][0], bound))
    && (forall j, k :: 0 <= j < k < |routes| ==> Before(routes[j], routes[k]))
    && (forall r, f :: LeadsTo(folder, r, f) && Earlier(r[0], bound) ==> r in routes)
  }

  /** The files of a folder in depth-first page order, each listed once. */
  ghost predicate ListsAll(folder: Folder, routes: seq<Route>, files: seq<FileInfo>) {
    && |routes| == |files|
    && (forall k :: 0 <= k < |routes| ==> LeadsTo(folder, routes[k], files[k]))
    && (forall j, k :: 0 <= j < k < |routes| ==> Before(routes[j], routes[k]))
    && (forall r, f :: LeadsTo(folder, r, f) ==> r in routes)
  }

  /** `routes` are the routes to all files of the item at one position, in order. */
  ghost predicate ListsItem(folder: Folder, at: Position, routes: seq<Route>, files: seq<FileInfo>) {
    && |routes| == |files|
    && (forall k :: 0 <= k < |routes| ==> LeadsTo(folder, routes[k], files[k]) && routes[k][0] == at)
    && (forall j, k :: 0 <= j < k < |routes| ==> Before(routes[j], routes[k]))
    && (forall r, f :: LeadsTo(folder, r, f) && r[0] == at ==> r in routes)
  }

  function Prefixed(at: Position, routes: seq<Route>): seq<Route> {
    seq(|routes|, k requires 0 <= k < |routes| => [at] + routes[k])
  }

  lemma SubFolderRoutes(folder: Folder, at: Position, inner: seq<Route>)
    requires HasItem(folder, at) && ItemAt(folder, at).SubFolder?
    requires ListsAll(ItemAt(folder, at).folder, inner, Files(ItemAt(folder, at).folder))
    ensures ListsItem(folder, at, Prefixed(at, inner), Files(ItemAt(folder, at).folder))
  {
    var routes, child := Prefixed(at, inner), ItemAt(folder, at).folder;
    assert forall k :: 0 <= k < |routes| ==> routes[k][1..] == inner[k];
    forall r, f | LeadsTo(folder, r, f) && r[0] == at
      ensures r in routes
    {
      assert LeadsTo(child, r[1..], f);
      var k :| 0 <= k < |inner| && inner[k] == r[1..];
      assert routes[k] == r;
    }
  }

  lemma {:induction false} ItemRoutes(folder: Folder, at: Position) returns (routes: seq<Route>)
    requires HasItem(folder, at)
    ensures ListsItem(folder, at, routes, FilesOfItem(ItemAt(folder, at)))
    decreases ItemAt(folder, at), 0
  {
    match ItemAt(folder, at)
    case OtherItem => routes := [];
    case FileItem(file) =>
      routes := [[at]];
      assert forall r, f :: LeadsTo(folder, r, f) && r[0] == at ==> r == [at];
    case SubFolder(child) =>
      var inner := FolderRoutes(child);
      routes := Prefixed(at, inner);
      SubFolderRoutes(folder, at, inner);
  }

  lemma AppendInOrder(at: Position, routes: seq<Route>, more: seq<Route>)
    requires forall k :: 0 <= k < |routes| ==> routes[k] != [] && Earlier(routes[k][0], at)
    requires forall k :: 0 <= k < |more| ==> more[k] != [] && more[k][0] == at
    requires forall j, k :: 0 <= j < k < |routes| ==> Before(routes[j], routes[k])
    requires forall j, k :: 0 <= j < k < |more| ==> Before(more[j], more[k])
    ensures forall j, k :: 0 <= j < k < |routes + more| ==> Before((routes + more)[j], (routes + more)[k])
  {
  }

  lemma AppendComplete(folder: Folder, at: Position, routes: seq<Route>, files: seq<FileInfo>, more: seq<Route>,
                       moreFiles: seq<FileInfo>, r: Route, f: FileInfo)
    requires ListsBefore(folder, at, routes, files) && ListsItem(folder, at, more, moreFiles)
    requires LeadsTo(folder, r, f) && Earlier(r[0], at.(index := at.index + 1))
    ensures r in routes + more
  {
  }

  lemma AppendItem(folder: Folder, at: Position, routes: seq<Route>, files: seq<FileInfo>, more: seq<Route>,
                   moreFiles: seq<FileInfo>)
    requires ListsBefore(folder, at, routes, files) && ListsItem(folder, at, more, moreFiles)
    ensures ListsBefore(folder, at.(index := at.index + 1), routes + more, files + moreFiles)
  {
    var next, all, allFiles := at.(index := at.index + 1), routes + more, files + moreFiles;
    AppendInOrder(at, routes, more);
    forall r, f | LeadsTo(folder, r, f) && Earlier(r[0], next)
      ensures r in all
    {
      AppendComplete(folder, at, routes, files, more, moreFiles, r, f);
    }
    forall k | 0 <= k < |all|
      ensures LeadsTo(folder, all[k], allFiles[k]) && Earlier(all[k][0], next)
    {
      if k >= |routes| {
        assert all[k] == more[k - |routes|] && allFiles[k] == moreFiles[k - |routes|];
      }
    }
    hide LeadsTo, Before;
  }

  lemma NextPage(folder: Folder, p: nat, end: nat, routes: seq<Route>, files: seq<FileInfo>)
    requires p < |folder.pages| && end == if folder.pages[p].Page? then |folder.pages[p].items| else 0
    requires ListsBefore(folder, Position(p, end), routes, files)
    ensures ListsBefore(folder, Position(p + 1, 0), routes, files)
  {
  }

  lemma AllPages(folder: Folder, routes: seq<Route>, files: seq<FileInfo>)
    requires ListsBefore(folder, Position(|folder.pages|, 0), routes, files)
    ensures ListsAll(folder, routes, files)
  {
  }

  /** The routes to the files of one page follow those of the pages before it. */
  lemma {:induction false} PageRoutes(folder: Folder, p: nat, before: seq<Route>,
                                      files: seq<FileInfo>) returns (routes: seq<Route>)
    requires p < |folder.pages| && ListsBefore(folder, Position(p, 0), before, files)
    ensures ListsBefore(folder, Position(p + 1, 0), routes, files + FilesOfPage(folder.pages[p]))
    decreases folder, 0
  {
    hide ListsBefore, ListsItem;
    routes := before;
    var page := folder.pages[p];
    if page.RequestFails? {
      NextPage(folder, p, 0, routes, files);
      assert files + [] == files;
    } else {
      assert files + FilesOfItems([]) == files;
      for i := 0 to |page.items|
        invariant ListsBefore(folder, Position(p, i), routes, files + FilesOfItems(page.items[..i]))
      {
        var more := ItemRoutes(folder, Position(p, i));
        var listed := files + FilesOfItems(page.items[..i]);
        AppendItem(folder, Position(p, i), routes, listed, more, FilesOfItem(page.items[i]));
        routes := routes + more;
        assert page.items[..i + 1][..i] == page.items[..i];
        assert files + FilesOfItems(page.items[..i + 1]) == listed + FilesOfItem(page.items[i]);
      }
      assert page.items[..|page.items|] == page.items;
      NextPage(folder, p, |page.items|, routes, files + FilesOfItems(page.items));
    }
  }

  /** The walk's list is that of all files, in depth-first page order. */
  lemma {:induction false} FolderRoutes(folder: Folder) returns (routes: seq<Route>)
    ensures ListsAll(folder, routes, Files(folder))
    decreases folder, 1
  {
    routes := [];
    assert ListsBefore(folder, Position(0, 0), [], []);
    hide ListsBefore, ListsAll;
    for p := 0 to |folder.pages|
      invariant ListsBefore(folder, Position(p, 0), routes, FilesOfPages(folder.pages[..p]))
    {
      routes := PageRoutes(folder, p, routes, FilesOfPages(folder.pages[..p]));
      assert folder.pages[..p + 1][..p] == folder.pages[..p];
    }
    assert folder.pages[..|folder.pages|] == folder.pages;
    AllPages(folder, routes, Files(folder));
  }

  /** Two files of the list are at different places of the tree: the list names every file of the tree exactly once. */
  lemma EveryFileOnce(folder: Folder)
    ensures exists routes ::
      (ListsAll(folder, routes, Files(folder)) && forall j, k :: 0 <= j < k < |routes| ==> routes[j] != routes[k])
  {
    var routes := FolderRoutes(folder);
    forall j, k | 0 <= j < k < |routes|
      ensures routes[j] != routes[k]
    {
      NotBeforeItself(routes[j]);
    }
  }

  lemma {:induction false} NotBeforeItself(a: Route)
    ensures !Before(a, a)
  {
    if a != [] {
      NotBeforeItself(a[1..]);
    }
  }

  // ---------------------------------------------------------------- when the walk fails

  /** The positions of `route` lead from folder to folder to one that has a page `p` whose request fails. */
  ghost predicate FailsAt(folder: Folder, route: Route, p: nat)
    decreases route
  {
    if route == [] then p < |folder.pages| && folder.pages[p].RequestFails?
    else
      && HasItem(folder, route[0]) && ItemAt(folder, route[0]).SubFolder?
      && FailsAt(ItemAt(folder, route[0]).folder, route[1..], p)
  }

  ghost predicate SomeFails(folder: Folder) {
    exists route, p :: FailsAt(folder, route, p)
  }

  lemma UnservedItem(page: Page) returns (i: nat)
    requires page.Page? && !PageServed(page)
    ensures i < |page.items| && !ItemServed(page.items[i])
  {
    i :| i < |page.items| && !ItemServed(page.items[i]);
  }

  lemma {:induction false} ServedExact(folder: Folder)
    ensures AllServed(folder) <==> !SomeFails(folder)
    decreases folder, 1
  {
    if !AllServed(folder) {
      var p :| 0 <= p < |folder.pages| && !PageServed(folder.pages[p]);
      if folder.pages[p].RequestFails? {
        assert FailsAt(folder, [], p);
      } else {
        var i := UnservedItem(folder.pages[p]);
        var child := folder.pages[p].items[i].folder;
        ServedExact(child);
        var route, q :| FailsAt(child, route, q);
        var longer := [Position(p, i)] + route;
        assert longer[1..] == route;
        assert FailsAt(folder, longer, q);
      }
    }
    if route: Route, p: nat :| FailsAt(folder, route, p) {
      if route != [] {
        var child := ItemAt(folder, route[0]).folder;
        ServedExact(child);
        assert FailsAt(child, route[1..], p);
        assert !ItemServed(folder.pages[route[0].page].items[route[0].index]);
      }
    }
  }

  // ---------------------------------------------------------------- the listing

  datatype Doc = Doc(externalId: string, title: string, url: string, modifiedAt: string, contentHash: string)

  function Describe(f: FileInfo): Doc {
    var eTag := RStripChar(LStripChar(f.eTag, '"'), '"');
    Doc(f.id, if f.name.Some? then f.name.value else f.id, f.webUrl, f.modifiedAt,
        if eTag != "" then eTag else f.id + ":" + f.modifiedAt)
  }

  /** The descriptors of the files that are not too large. */
  function Described(files: seq<FileInfo>): seq<Doc> {
    if files == [] then []
    else
      var last := files[|files| - 1];
      Described(files[..|files| - 1]) + if last.size > MAX_FILE_SIZE_BYTES then [] else [Describe(last)]
  }

  /** What the descriptor of a file says: the hash is the tag without quotes around it, or else made of id and date. */
  ghost predicate DescribesFile(d: Doc, f: FileInfo) {
    && d.externalId == f.id && d.url == f.webUrl && d.modifiedAt == f.modifiedAt
    && (f.name.Some? ==> d.title == f.name.value) && (f.name.None? ==> d.title == f.id)
    && if HasMore(f.eTag) then Unquoted(f.eTag, d.contentHash) else d.contentHash == f.id + ":" + f.modifiedAt
  }

  /** The tag has something besides quotes. */
  ghost predicate HasMore(tag: string) {
    exists c :: c in tag && c != '"'
  }

  ghost predicate IsUnquoted(tag: string, inner: string, i: nat) {
    && i + |inner| <= |tag| && tag[i..i + |inner|] == inner
    && (forall k :: 0 <= k < i || i + |inner| <= k < |tag| ==> tag[k] == '"')
  }

  ghost predicate Unquoted(tag: string, inner: string) {
    inner != "" && inner[0] != '"' && inner[|inner| - 1] != '"' && exists i :: IsUnquoted(tag, inner, i)
  }

  lemma {:induction false} LStripCharExact(s: string, c: char)
    ensures var n := |s| - |LStripChar(s, c)|;
      && 0 <= n && LStripChar(s, c) == s[n..] && (forall k :: 0 <= k < n ==> s[k] == c)
      && (LStripChar(s, c) != "" ==> LStripChar(s, c)[0] != c)
  {
    if s != "" && s[0] == c {
      LStripCharExact(s[1..], c);
      assert forall k :: 0 < k < |s| ==> s[k] == s[1..][k - 1];
    }
  }

  lemma {:induction false} RStripCharExact(s: string, c: char)
    ensures var t := RStripChar(s, c);
      t <= s && (forall k :: |t| <= k < |s| ==> s[k] == c) && (t != "" ==> t[|t| - 1] != c)
  {
    if s != "" && s[|s| - 1] == c {
      RStripCharExact(s[..|s| - 1], c);
    }
  }

  lemma TagExact(tag: string)
    ensures var inner := RStripChar(LStripChar(tag, '"'), '"');
      if HasMore(tag) then Unquoted(tag, inner) else inner == ""
  {
    var left := LStripChar(tag, '"');
    var inner := RStripChar(left, '"');
    LStripCharExact(tag, '"');
    RStripCharExact(left, '"');
    hide LStripChar, RStripChar;
    var n: nat := |tag| - |left|;
    assert forall k :: n <= k < |tag| ==> tag[k] == left[k - n];
    assert IsUnquoted(tag, inner, n);
    if inner == "" {
      forall c | c in tag
        ensures c == '"'
      {
        var k :| 0 <= k < |tag| && tag[k] == c;
      }
    } else {
      assert inner[0] == left[0] == tag[n] && tag[n] in tag && tag[n] != '"';
    }
  }

  lemma DescribeExact(f: FileInfo)
    ensures DescribesFile(Describe(f), f)
  {
    TagExact(f.eTag);
    hide LStripChar, RStripChar, Unquoted, HasMore;
    assert Unquoted(f.eTag, "") ==> false by { NotUnquoted(f.eTag); }
  }

  lemma NotUnquoted(tag: string)
    ensures !Unquoted(tag, "")
  {
  }

  /** Which files are listed: exactly those of at most 50 MB, each once, in the order of the walk. */
  ghost predicate Picks(files: seq<FileInfo>, docs: seq<Doc>, picked: seq<nat>) {
    && |picked| == |docs|
    && (forall i :: 0 <= i < |picked| ==> DescribesAt(files, picked[i], docs[i]))
    && (forall i, j :: 0 <= i < j < |picked| ==> picked[i] < picked[j])
    && (forall k :: Small(files, k) ==> IsPicked(picked, k))
  }

  predicate Small(files: seq<FileInfo>, k: nat) {
    k < |files| && files[k].size <= 52_428_800
  }

  predicate IsPicked(picked: seq<nat>, k: nat) {
    k in picked
  }

  ghost predicate DescribesAt(files: seq<FileInfo>, k: nat, d: Doc) {
    Small(files, k) && DescribesFile(d, files[k])
  }

  lemma {:induction false} DescribedExact(files: seq<FileInfo>) returns (picked: seq<nat>)
    ensures Picks(files, Described(files), picked)
  {
    hide *;
    picked := [];
    if files == [] {
      NothingPicked();
    } else {
      var front, last := files[..|files| - 1], files[|files| - 1];
      picked := DescribedExact(front);
      DescribedLast(files);
      DescribeExact(last);
      if last.size <= 52_428_800 {
        PickLast(front, Described(front), picked, last, Describe(last));
        picked := picked + [|front|];
      } else {
        SkipLast(front, Described(front), picked, last);
      }
    }
  }

  lemma NothingPicked()
    ensures Picks([], Described([]), [])
  {
  }

  lemma DescribedLast(files: seq<FileInfo>)
    requires files != []
    ensures var front, last := files[..|files| - 1], files[|files| - 1];
      && files == front + [last]
      && Described(files) == if last.size > 52_428_800 then Described(front) else Described(front) + [Describe(last)]
  {
    hide Describe;
  }

  lemma SmallSnoc(files: seq<FileInfo>, f: FileInfo, k: nat)
    ensures Small(files + [f], k) <==> Small(files, k) || (k == |files| && f.size <= 52_428_800)
  {
  }

  lemma PickedSnoc(picked: seq<nat>, last: nat, k: nat)
    ensures IsPicked(picked + [last], k) <==> IsPicked(picked, k) || k == last
  {
  }

  lemma DescribesSnoc(files: seq<FileInfo>, f: FileInfo, k: nat, d: Doc)
    ensures DescribesAt(files, k, d) ==> k < |files| && DescribesAt(files + [f], k, d)
  {
    hide DescribesFile;
  }

  lemma PickLast(files: seq<FileInfo>, docs: seq<Doc>, picked: seq<nat>, f: FileInfo, d: Doc)
    requires Picks(files, docs, picked) && f.size <= 52_428_800 && DescribesFile(d, f)
    ensures Picks(files + [f], docs + [d], picked + [|files|])
  {
    var all, now := files + [f], picked + [|files|];
    assert DescribesAt(all, |files|, d);
    hide DescribesAt, Small, IsPicked;
    forall i | 0 <= i < |now|
      ensures DescribesAt(all, now[i], (docs + [d])[i]) && (i < |picked| ==> now[i] < |files|)
    {
      if i < |picked| {
        DescribesSnoc(files, f, picked[i], docs[i]);
      }
    }
    forall k | Small(all, k)
      ensures IsPicked(now, k)
    {
      SmallSnoc(files, f, k);
      PickedSnoc(picked, |files|, k);
    }
  }

  lemma SkipLast(files: seq<FileInfo>, docs: seq<Doc>, picked: seq<nat>, f: FileInfo)
    requires Picks(files, docs, picked) && f.size > 52_428_800
    ensures Picks(files + [f], docs, picked)
  {
    hide DescribesAt, Small, IsPicked;
    forall i | 0 <= i < |picked|
      ensures DescribesAt(files + [f], picked[i], docs[i])
    {
      DescribesSnoc(files, f, picked[i], docs[i]);
    }
    forall k | Small(files + [f], k)
      ensures IsPicked(picked, k)
    {
      SmallSnoc(files, f, k);
    }
  }

  /** A failed request anywhere in the tree leaves nothing of the listing. */
  method ListDocuments(root: Folder) returns (results: seq<Doc>)
    ensures results == if SomeFails(root) then [] else Described(Files(root))
  {
    ServedExact(root);
    hide Describe, FilesOfPages, AllServed, SomeFails;
    var walk := new Walk();
    var ok := walk.FetchFolder(root);
    if !ok {
      return [];
    }
    results := [];
    var files := walk.items;
    assert files == Files(root);
    for i := 0 to |files|
      invariant results == Described(files[..i])
    {
      assert files[..i + 1][..i] == files[..i];
      if files[i].size > MAX_FILE_SIZE_BYTES {
        continue;
      }
      results := results + [Describe(files[i])];
    }
    assert files[..|files|] == files;
  }
}
