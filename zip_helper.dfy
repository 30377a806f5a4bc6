/** `ZipHelper.compress_dir`: the list of (source path, archive name) pairs written into the zip
    file, with the directory tree under the source path given as a value. */
module ZipHelper {
  import opened Wrappers
  import opened PyStrings

  /** What a path names on disk: a file (anything `os.path.isdir` rejects) or a directory with
      its entries in the order `os.listdir` lists them. */
  datatype Node = File | Dir(children: seq<Child>)

  /** One directory entry: its name and what it names. */
  datatype Child = Child(name: string, node: Node)

  /** One `{'src': ..., 'arcname': ...}` item of the result list. */
  datatype ZipItem = ZipItem(src: string, arcname: string)

  /** POSIX `os.path.join(a, b)`: an absolute `b` replaces `a`; otherwise `b` is appended, with a
      `/` in between unless `a` is empty or already ends with one. */
  function Join(a: string, b: string): string
  {
    if |b| > 0 && b[0] == '/' then b
    else if a == "" || a[|a| - 1] == '/' then a + b
    else a + "/" + b
  }

  /** The tail of POSIX `os.path.split(path)`: what follows the last `/`, or the whole path. */
  function Tail(path: string): (r: string)
    ensures '/' !in r
    ensures '/' in path ==> |r| < |path| && path == path[..|path| - |r|] + r
                            && path[|path| - |r| - 1] == '/'
    ensures '/' !in path ==> r == path
  {
    var slash := RFind(path, '/');
    assert path == path[..slash + 1] + path[slash + 1..];
    path[slash + 1..]
  }

  /** A name `os.listdir` can return: not empty and without `/`. */
  predicate ValidName(name: string)
  {
    name != "" && '/' !in name
  }

  /** Every entry name in the tree is valid and no directory lists a name twice. */
  ghost predicate ValidNode(node: Node)
    decreases node
  {
    node.Dir? ==> ValidChildren(node.children)
  }

  /** The part of `ValidNode` about the entries of one directory. */
  ghost predicate ValidChildren(children: seq<Child>)
    decreases children
  {
    && (forall i :: 0 <= i < |children| ==> ValidName(children[i].name) && ValidNode(children[i].node))
    && (forall i, j :: 0 <= i < j < |children| ==> children[i].name != children[j].name)
  }

  /** The items `_get_zip_items(result, src_path, item_path)` appends: one per file below
      `srcPath`, depth first in listing order; directories, even empty ones, add no item. */
  function ZipItems(srcPath: string, node: Node, itemPath: string): seq<ZipItem>
    decreases node
  {
    match node
    case File => [ZipItem(srcPath, itemPath)]
    case Dir(children) => ChildrenItems(srcPath, children, itemPath)
  }

  /** The items appended for the first entries of a directory. */
  function ChildrenItems(srcPath: string, children: seq<Child>, itemPath: string): seq<ZipItem>
    decreases children
  {
    if children == [] then []
    else
      var last := children[|children| - 1];
      ChildrenItems(srcPath, children[..|children| - 1], itemPath)
      + ZipItems(Join(srcPath, last.name), last.node, Join(itemPath, last.name))
  }

  /** The files below a node, each as the list of names leading to it, depth first in listing
      order; a file itself is reached by the empty list. */
  function Paths(node: Node): seq<seq<string>>
    decreases node
  {
    match node
    case File => [[]]
    case Dir(children) => ChildPaths(children)
  }

  /** The files below the first entries of a directory. */
  function ChildPaths(children: seq<Child>): seq<seq<string>>
    decreases children
  {
    if children == [] then []
    else
      var last := children[|children| - 1];
      ChildPaths(children[..|children| - 1]) + Under(last.name, Paths(last.node))
  }

  /** The paths of an entry's files, seen from its directory. */
  function Under(name: string, paths: seq<seq<string>>): seq<seq<string>>
  {
    seq(|paths|, k requires 0 <= k < |paths| => [name] + paths[k])
  }

  /** Joining the names of a path one at a time onto `base`, as the recursion does. */
  function Extend(base: string, names: seq<string>): string
    decreases |names|
  {
    if names == [] then base else Extend(Join(base, names[0]), names[1..])
  }

  /** The names of a path separated by `/`. */
  function Slash(names: seq<string>): string
    decreases |names|
  {
    if names == [] then ""
    else if |names| == 1 then names[0]
    else names[0] + "/" + Slash(names[1..])
  }

  /** The items follow the files: item `k` joins the names leading to file `k` onto the source
      path and onto the item path. */
  lemma {:induction false} ItemsFollowPaths(srcPath: string, node: Node, itemPath: string)
    ensures |ZipItems(srcPath, node, itemPath)| == |Paths(node)|
    ensures forall k :: 0 <= k < |Paths(node)| ==>
              ZipItems(srcPath, node, itemPath)[k]
              == ZipItem(Extend(srcPath, Paths(node)[k]), Extend(itemPath, Paths(node)[k]))
    decreases node
  {
    match node
    case File =>
    case Dir(children) => ChildrenFollowPaths(srcPath, children, itemPath);
  }

  /** The part of `ItemsFollowPaths` about the entries of one directory. */
  lemma {:induction false} ChildrenFollowPaths(srcPath: string, children: seq<Child>,
                                               itemPath: string)
    ensures |ChildrenItems(srcPath, children, itemPath)| == |ChildPaths(children)|
    ensures forall k :: 0 <= k < |ChildPaths(children)| ==>
              ChildrenItems(srcPath, children, itemPath)[k]
              == ZipItem(Extend(srcPath, ChildPaths(children)[k]),
                         Extend(itemPath, ChildPaths(children)[k]))
    decreases children
  {
    if children != [] {
      var init := children[..|children| - 1];
      var last := children[|children| - 1];
      ChildrenFollowPaths(srcPath, init, itemPath);
      var src, item := Join(srcPath, last.name), Join(itemPath, last.name);
      ItemsFollowPaths(src, last.node, item);
      var below := Paths(last.node);
      forall k | 0 <= k < |below|
        ensures ZipItems(src, last.node, item)[k]
                == ZipItem(Extend(srcPath, Under(last.name, below)[k]),
                           Extend(itemPath, Under(last.name, below)[k]))
      {
        var p := [last.name] + below[k];
        assert p[1..] == below[k];
      }
    }
  }

  /** Every path of a valid tree is made of valid names; below a directory no path is empty. */
  lemma {:induction false} PathsValid(node: Node)
    requires ValidNode(node)
    ensures forall k, j :: 0 <= k < |Paths(node)| && 0 <= j < |Paths(node)[k]| ==>
              ValidName(Paths(node)[k][j])
    ensures node.Dir? ==> forall k :: 0 <= k < |Paths(node)| ==> Paths(node)[k] != []
    decreases node
  {
    if node.Dir? {
      ChildPathsValid(node.children);
    }
  }

  /** The part of `PathsValid` about the entries of one directory. */
  lemma {:induction false} ChildPathsValid(children: seq<Child>)
    requires ValidChildren(children)
    ensures forall k, j :: 0 <= k < |ChildPaths(children)| && 0 <= j < |ChildPaths(children)[k]| ==>
              ValidName(ChildPaths(children)[k][j])
    ensures forall k :: 0 <= k < |ChildPaths(children)| ==> ChildPaths(children)[k] != []
    decreases children
  {
    if children != [] {
      var init := children[..|children| - 1];
      var last := children[|children| - 1];
      assert forall i :: 0 <= i < |init| ==> init[i] == children[i];
      ChildPathsValid(init);
      PathsValid(last.node);
    }
  }

  /** Joining a non-empty path of valid names one name at a time is joining it at once, its
      names separated by `/`. */
  lemma {:induction false} ExtendIsJoin(base: string, names: seq<string>)
    requires names != []
    requires forall j :: 0 <= j < |names| ==> ValidName(names[j])
    ensures Extend(base, names) == Join(base, Slash(names))
    ensures Slash(names) != "" && Slash(names)[0] != '/'
    decreases |names|
  {
    var first := names[0];
    assert first[0] != '/';
    if |names| > 1 {
      var rest := names[1..];
      ExtendIsJoin(Join(base, first), rest);
      var s := Slash(rest);
      var j := Join(base, first);
      assert j[|j| - 1] == first[|first| - 1] != '/';
      assert Join(j, s) == j + "/" + s;
      assert Slash(names) == first + "/" + s;
    }
  }

  /** For a directory, the archive names are the files' paths relative to the directory itself
      (its own name is not part of them), and each source is the directory path joined with
      the archive name. */
  lemma ArchiveLayout(srcPath: string, node: Node)
    requires node.Dir? && ValidNode(node)
    ensures |ZipItems(srcPath, node, "")| == |Paths(node)|
    ensures forall k :: 0 <= k < |Paths(node)| ==>
              ZipItems(srcPath, node, "")[k].arcname == Slash(Paths(node)[k])
              && ZipItems(srcPath, node, "")[k].src == Join(srcPath, Slash(Paths(node)[k]))
  {
    ItemsFollowPaths(srcPath, node, "");
    PathsValid(node);
    forall k | 0 <= k < |Paths(node)|
      ensures ZipItems(srcPath, node, "")[k].arcname == Slash(Paths(node)[k])
      ensures ZipItems(srcPath, node, "")[k].src == Join(srcPath, Slash(Paths(node)[k]))
    {
      ExtendIsJoin("", Paths(node)[k]);
      ExtendIsJoin(srcPath, Paths(node)[k]);
    }
  }

  /** The names listed by a directory. */
  function Names(children: seq<Child>): set<string>
  {
    set i | 0 <= i < |children| :: children[i].name
  }

  /** In a valid tree no file is reached twice. */
  lemma {:induction false} PathsDistinct(node: Node)
    requires ValidNode(node)
    ensures forall k, l :: 0 <= k < l < |Paths(node)| ==> Paths(node)[k] != Paths(node)[l]
    decreases node
  {
    if node.Dir? {
      ChildPathsDistinct(node.children);
    }
  }

  /** The part of `PathsDistinct` about the entries of one directory: each path starts with
      the name of one of them. */
  lemma {:induction false} ChildPathsDistinct(children: seq<Child>)
    requires ValidChildren(children)
    ensures forall k :: 0 <= k < |ChildPaths(children)| ==>
              ChildPaths(children)[k] != [] && ChildPaths(children)[k][0] in Names(children)
    ensures forall k, l :: 0 <= k < l < |ChildPaths(children)| ==>
              ChildPaths(children)[k] != ChildPaths(children)[l]
    decreases children
  {
    if children != [] {
      var n := |children| - 1;
      var init := children[..n];
      var last := children[n];
      assert forall i :: 0 <= i < n ==> init[i] == children[i];
      ChildPathsDistinct(init);
      PathsDistinct(last.node);
      assert last.name !in Names(init);
      assert Names(init) <= Names(children);
      var before := ChildPaths(init);
      var below := Under(last.name, Paths(last.node));
      forall k, l | 0 <= k < l < |ChildPaths(children)|
        ensures ChildPaths(children)[k] != ChildPaths(children)[l]
      {
        if l >= |before| && k < |before| {
          assert ChildPaths(children)[l][0] == last.name;
        }
        if k >= |before| {
          assert Paths(last.node)[k - |before|] != Paths(last.node)[l - |before|];
          assert below[k - |before|][1..] == Paths(last.node)[k - |before|];
          assert below[l - |before|][1..] == Paths(last.node)[l - |before|];
        }
      }
    }
  }

  /** Different non-empty paths of valid names are spelled differently. */
  lemma {:induction false} SlashInjective(a: seq<string>, b: seq<string>)
    requires a != [] && b != []
    requires forall j :: 0 <= j < |a| ==> ValidName(a[j])
    requires forall j :: 0 <= j < |b| ==> ValidName(b[j])
    requires Slash(a) == Slash(b)
    ensures a == b
    decreases |a|
  {
    SlashShape(a);
    SlashShape(b);
    if |a| > 1 {
      var s := Slash(a);
      assert a[0] == s[..|a[0]|] == b[0];
      SlashInjective(a[1..], b[1..]);
      assert a == [a[0]] + a[1..];
      assert b == [b[0]] + b[1..];
    }
  }

  /** A path of one valid name is that name, without `/`; a longer one is its first name, the
      first `/`, and the rest. */
  lemma SlashShape(a: seq<string>)
    requires a != [] && forall j :: 0 <= j < |a| ==> ValidName(a[j])
    ensures '/' in Slash(a) <==> |a| > 1
    ensures |a| == 1 ==> a == [Slash(a)]
    ensures |a| > 1 ==> IndexOf(Slash(a), '/') == Some(|a[0]|)
                        && Slash(a)[..|a[0]|] == a[0] && Slash(a)[|a[0]| + 1..] == Slash(a[1..])
  {
    var s := Slash(a);
    if |a| > 1 {
      assert s == a[0] + "/" + Slash(a[1..]);
      assert s[|a[0]|] == '/';
      assert forall j :: 0 <= j < |a[0]| ==> s[j] == a[0][j];
    }
  }

  /** A directory's archive names are all different: each file is written once. */
  lemma ArchiveNamesDistinct(srcPath: string, node: Node)
    requires node.Dir? && ValidNode(node)
    ensures forall k, l :: 0 <= k < l < |ZipItems(srcPath, node, "")| ==>
              ZipItems(srcPath, node, "")[k].arcname != ZipItems(srcPath, node, "")[l].arcname
  {
    ArchiveLayout(srcPath, node);
    PathsValid(node);
    PathsDistinct(node);
    forall k, l | 0 <= k < l < |ZipItems(srcPath, node, "")|
      ensures ZipItems(srcPath, node, "")[k].arcname != ZipItems(srcPath, node, "")[l].arcname
    {
      if Slash(Paths(node)[k]) == Slash(Paths(node)[l]) {
        SlashInjective(Paths(node)[k], Paths(node)[l]);
      }
    }
  }

  /** An empty directory adds no item. */
  lemma EmptyDirectoryAddsNothing(srcPath: string, children: seq<Child>, name: string,
                                  itemPath: string)
    ensures ChildrenItems(srcPath, children + [Child(name, Dir([]))], itemPath)
            == ChildrenItems(srcPath, children, itemPath)
  {
    assert (children + [Child(name, Dir([]))])[..|children|] == children;
  }

  /** The `result` list that `_get_zip_items` appends to. */
  class ItemList {
    var items: seq<ZipItem>

    constructor()
      ensures items == []
    {
      items := [];
    }

    /** `result.append(item)`. */
    method Append(item: ZipItem)
      modifies this
      ensures items == old(items) + [item]
    {
      items := items + [item];
    }
  }

  /** `_get_zip_items`: appends to `result` the items for the node at `srcPath`. */
  method GetZipItems(result: ItemList, srcPath: string, node: Node, itemPath: string)
    modifies result
    ensures result.items == old(result.items) + ZipItems(srcPath, node, itemPath)
    decreases node
  {
    match node {
      case Dir(children) =>
        for i := 0 to |children|
          invariant result.items == old(result.items) + ChildrenItems(srcPath, children[..i], itemPath)
        {
          assert children[..i + 1][..i] == children[..i];
          GetZipItems(result, Join(srcPath, children[i].name), children[i].node,
                      Join(itemPath, children[i].name));
        }
        assert children[..|children|] == children;
      case File =>
        result.Append(ZipItem(srcPath, itemPath));
    }
  }

  /** `compress_dir`: the zip file's path and the items written into it, in order. A directory
      contributes its files under their paths relative to it; anything else contributes itself
      under its last path component. */
  method CompressDir(srcPath: string, node: Node, dstPath: string, dstFilename: string)
    returns (zipPath: string, entries: seq<ZipItem>)
    ensures zipPath == Join(dstPath, dstFilename)
    ensures node.Dir? && ValidNode(node) ==>
              |entries| == |Paths(node)|
              && forall k :: 0 <= k < |entries| ==>
                   entries[k].arcname == Slash(Paths(node)[k])
                   && entries[k].src == Join(srcPath, entries[k].arcname)
    ensures node.Dir? && ValidNode(node) ==>
              forall k, l :: 0 <= k < l < |entries| ==> entries[k].arcname != entries[l].arcname
    ensures !node.Dir? ==> |entries| == 1 && entries[0].src == srcPath
                           && entries[0].arcname == Tail(srcPath) && '/' !in entries[0].arcname
  {
    zipPath := Join(dstPath, dstFilename);
    var result := new ItemList();
    if node.Dir? {
      GetZipItems(result, srcPath, node, "");
      entries := result.items;
      assert entries == ZipItems(srcPath, node, "");
      if ValidNode(node) {
        ArchiveLayout(srcPath, node);
        ArchiveNamesDistinct(srcPath, node);
      }
    } else {
      // Only the tail of `os.path.split(src_path)` is used.
      result.Append(ZipItem(srcPath, Tail(srcPath)));
      entries := result.items;
    }
  }
}
