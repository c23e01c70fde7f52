/**
 * Model of `directory_to_json`: the backend walks an uploaded directory and builds the
 * nested `{name, type, children | content}` tree the frontend explorer displays.
 *
 * The filesystem is an input value: a directory is its name and its listing in the
 * order `os.listdir` returns it, a file is its name and the text that reading it in
 * UTF-8 text mode yields (`None` when the read or the decode fails).
 */
module DirectoryHandler {
  import opened Wrappers
  import opened Strings

  /** The suffixes that make a file part of the tree, in the order the source lists them. */
  const SourceSuffixes: seq<string> :=
    [".java", ".py", ".js", ".ts", ".cpp", ".c", ".h", ".hpp", ".go",
     ".swift", ".kotlin", ".scala", ".php", ".rb", ".rs"]

  /** A file is kept iff its name ends with one of the suffixes; the test is case-sensitive. */
  predicate IsSourceFile(name: string)
    ensures IsSourceFile(name) <==>
      exists k :: 0 <= k < |SourceSuffixes| && EndsWith(name, SourceSuffixes[k])
  {
    EndsWithAny(name, SourceSuffixes)
  }

  /** Any name ending with one of the listed suffixes is kept, whatever comes before it. */
  lemma SourceSuffixKept(stem: string, k: nat)
    requires k < |SourceSuffixes|
    ensures IsSourceFile(stem + SourceSuffixes[k])
  {
    var s := stem + SourceSuffixes[k];
    assert s[|s| - |SourceSuffixes[k]|..] == SourceSuffixes[k];
  }

  /** Every listed suffix ends in a lower-case letter. */
  lemma SuffixesEndLowerCase()
    ensures forall k :: 0 <= k < |SourceSuffixes| ==>
      |SourceSuffixes[k]| >= 2 && 'a' <= SourceSuffixes[k][|SourceSuffixes[k]| - 1] <= 'z'
  {
  }

  /** The test is case-sensitive: a name ending in an upper-case letter, such as `A.PY`, is dropped. */
  lemma UpperCaseSuffixDropped(name: string)
    requires name != [] && 'A' <= name[|name| - 1] <= 'Z'
    ensures !IsSourceFile(name)
  {
    SuffixesEndLowerCase();
  }

  /** Kotlin's usual `.kt` is not in the list (only `.kotlin` is), and neither is `.tsx`. */
  lemma UnlistedSuffixesDropped()
    ensures !IsSourceFile("Main.kt") && !IsSourceFile("App.tsx")
  {
    var a, b := "Main.kt", "App.tsx";
    forall k | 0 <= k < |SourceSuffixes|
      ensures !EndsWith(a, SourceSuffixes[k]) && !EndsWith(b, SourceSuffixes[k])
    {
      var t := SourceSuffixes[k];
      assert |t| >= 2 && (t[|t| - 1] != 't' || t[|t| - 2] != 'k');
      assert t[|t| - 1] != 'x';
    }
  }

  /** What the filesystem shows at one path. */
  datatype FsNode =
    | Dir(name: string, entries: seq<FsNode>)
    | File(name: string, text: Option<string>)

  /**
   * One node of the produced JSON tree. A directory node has the keys name, type and
   * children; a file node has name, type and content; no node has both.
   */
  datatype JsonNode =
    | DirectoryNode(name: string, children: seq<JsonNode>)
    | FileNode(name: string, content: string)
  {
    /** The node's `"type"` field. */
    function Type(): string
    {
      if DirectoryNode? then "directory" else "file"
    }
  }

  /** The exceptions that escape `directory_to_json`. */
  datatype Error =
    | NotADirectory(path: string)   // os.listdir on a path that is not a directory
    | DecodeFailed(name: string)    // open/read of a kept file fails

  /** Python's `posixpath.basename`: the text after the last '/', empty when the path ends in '/'. */
  function Basename(path: string): (r: string)
    ensures '/' !in r && |r| <= |path| && r == path[|path| - |r|..]
    ensures |r| < |path| ==> path[|path| - |r| - 1] == '/'
  {
    AfterLast(path, '/')
  }

  /** An entry the loop appends a child for: every directory, and the files with a source suffix. */
  predicate Listed(e: FsNode)
  {
    e.Dir? || IsSourceFile(e.name)
  }

  /*
   * Specification of the builder. Entries are taken from the front of the listing, so
   * the recursion peels off the LAST entry: `ConvertEntries(entries[..i])` is the state
   * of the loop after `i` iterations.
   */

  /** The node built for `n`, or the error raised while building it. */
  function ConvertNode(n: FsNode): (r: Result<JsonNode, Error>)
    ensures r.Ok? ==> r.value.name == n.name && (r.value.DirectoryNode? <==> n.Dir?)
    ensures r.Err? ==> r.error.DecodeFailed?
    decreases n, 1
  {
    match n
    case File(name, text) =>
      if text.Some? then Ok(FileNode(name, text.value)) else Err(DecodeFailed(name))
    case Dir(name, entries) =>
      var cs := ConvertEntries(entries);
      if cs.Err? then Err(cs.error) else Ok(DirectoryNode(name, cs.value))
  }

  /** The children built for a listing, or the first error raised while building them. */
  function ConvertEntries(entries: seq<FsNode>): (r: Result<seq<JsonNode>, Error>)
    ensures r.Ok? ==> |r.value| <= |entries|
    ensures r.Err? ==> r.error.DecodeFailed?
    decreases entries, 0
  {
    if entries == [] then Ok([])
    else
      var init := ConvertEntries(entries[..|entries| - 1]);
      var last := entries[|entries| - 1];
      if init.Err? || !Listed(last) then init
      else
        var node := ConvertNode(last);
        if node.Err? then Err(node.error) else Ok(init.value + [node.value])
  }

  /** `directory_to_json(rootdir)` when `root` is what the filesystem shows at `rootdir`. */
  function ToJson(rootdir: string, root: FsNode): (r: Result<JsonNode, Error>)
    ensures r.Ok? ==> r.value.Type() == "directory" && r.value.name == Basename(rootdir)
    ensures root.File? <==> r == Err(NotADirectory(rootdir))
  {
    match root
    case File(_, _) => Err(NotADirectory(rootdir))
    case Dir(_, entries) => ConvertNode(Dir(Basename(rootdir), entries))
  }

  /** Once a prefix of the listing raises, the whole listing raises the same error. */
  lemma {:induction false} ErrorPropagates(entries: seq<FsNode>, k: nat)
    requires k <= |entries|
    requires ConvertEntries(entries[..k]).Err?
    ensures ConvertEntries(entries) == ConvertEntries(entries[..k])
    decreases |entries|
  {
    if k < |entries| {
      var init := entries[..|entries| - 1];
      assert init[..k] == entries[..k];
      ErrorPropagates(init, k);
    } else {
      assert entries[..k] == entries;
    }
  }

  /**
   * The loop of `directory_to_json` for a directory called `name` whose listing is
   * `entries`: each subdirectory is built recursively and appended, each file with a
   * source suffix is read and appended, every other file is skipped.
   */
  method BuildDirectory(name: string, entries: seq<FsNode>) returns (r: Result<JsonNode, Error>)
    ensures r == ConvertNode(Dir(name, entries))
    decreases entries
  {
    var children: seq<JsonNode> := [];
    for i := 0 to |entries|
      invariant ConvertEntries(entries[..i]) == Ok(children)
    {
      var item := entries[i];
      assert entries[..i + 1][..i] == entries[..i];
      if item.Dir? {
        assert item in entries;
        var sub := BuildDirectory(item.name, item.entries);
        if sub.Err? {
          ErrorPropagates(entries, i + 1);
          return Err(sub.error);
        }
        children := children + [sub.value];
      } else if IsSourceFile(item.name) {
        if item.text.None? {
          ErrorPropagates(entries, i + 1);
          return Err(DecodeFailed(item.name));
        }
        children := children + [FileNode(item.name, item.text.value)];
      }
    }
    assert entries[..|entries|] == entries;
    return Ok(DirectoryNode(name, children));
  }

  /** `directory_to_json`: the root becomes a directory node named after the last component of `rootdir`. */
  method DirectoryToJson(rootdir: string, root: FsNode) returns (r: Result<JsonNode, Error>)
    ensures r == ToJson(rootdir, root)
    ensures r.Ok? ==> r.value.Type() == "directory" && r.value.name == Basename(rootdir)
    ensures root.File? <==> r == Err(NotADirectory(rootdir))
  {
    if root.File? {
      return Err(NotADirectory(rootdir));
    }
    r := BuildDirectory(Basename(rootdir), root.entries);
    FailsIffUnreadable(Dir(Basename(rootdir), root.entries));
  }

  /*
   * Independent descriptions of the result.
   */

  /** The entries of a listing that get a child node, in listing order. */
  function ListedEntries(entries: seq<FsNode>): (r: seq<FsNode>)
    ensures forall e :: e in r <==> e in entries && Listed(e)
  {
    if entries == [] then []
    else
      var last := entries[|entries| - 1];
      ListedEntries(entries[..|entries| - 1]) + (if Listed(last) then [last] else [])
  }

  /**
   * A directory's node has type "directory", keeps the directory's name, and has one
   * child per listed entry, in listing order: the k-th child is the node built for the
   * k-th listed entry.
   */
  lemma {:induction false} DirectoryShape(name: string, entries: seq<FsNode>)
    ensures var r := ConvertNode(Dir(name, entries));
      r.Ok? ==>
        && r.value.Type() == "directory"
        && r.value.name == name
        && |r.value.children| == |ListedEntries(entries)|
        && forall k :: 0 <= k < |r.value.children| ==>
             ConvertNode(ListedEntries(entries)[k]) == Ok(r.value.children[k])
  {
    ChildrenFollowListing(entries);
  }

  lemma {:induction false} ChildrenFollowListing(entries: seq<FsNode>)
    ensures var r := ConvertEntries(entries);
      r.Ok? ==>
        && |r.value| == |ListedEntries(entries)|
        && forall k :: 0 <= k < |r.value| ==> ConvertNode(ListedEntries(entries)[k]) == Ok(r.value[k])
    decreases entries
  {
    if entries != [] {
      ChildrenFollowListing(entries[..|entries| - 1]);
    }
  }

  /** One line of a depth-first listing of a tree. */
  datatype Item = DirItem(name: string) | FileItem(name: string, text: Option<string>)

  /** Depth-first outline of an input tree: every directory and every file the builder keeps, in listing order. */
  function Outline(n: FsNode): seq<Item>
    decreases n, 1
  {
    match n
    case File(name, text) => [FileItem(name, text)]
    case Dir(name, entries) => [DirItem(name)] + OutlineOf(entries)
  }

  /** The outline of a listing; a file item in it always has a source suffix. */
  function OutlineOf(entries: seq<FsNode>): (r: seq<Item>)
    ensures forall k :: 0 <= k < |r| && r[k].FileItem? ==> IsSourceFile(r[k].name)
    decreases entries, 0
  {
    if entries == [] then []
    else
      var last := entries[|entries| - 1];
      OutlineOf(entries[..|entries| - 1]) + (if Listed(last) then Outline(last) else [])
  }

  /** Depth-first outline of a produced tree. */
  function JsonOutline(j: JsonNode): seq<Item>
    decreases j, 1
  {
    match j
    case FileNode(name, content) => [FileItem(name, Some(content))]
    case DirectoryNode(name, children) => [DirItem(name)] + JsonOutlineOf(children)
  }

  function JsonOutlineOf(children: seq<JsonNode>): seq<Item>
    decreases children, 0
  {
    if children == [] then []
    else JsonOutlineOf(children[..|children| - 1]) + JsonOutline(children[|children| - 1])
  }

  /**
   * A successful build has the same depth-first outline as its input: one directory
   * node per directory at every depth (kept even when nothing in it matches), one file
   * node per kept file carrying that file's name and full text, in listing order. In
   * particular the number of file nodes is the number of kept files in the subtree.
   */
  lemma {:induction false} OutlinePreserved(n: FsNode)
    ensures ConvertNode(n).Ok? ==> JsonOutline(ConvertNode(n).value) == Outline(n)
    decreases n, 1
  {
    match n
    case File(_, _) =>
    case Dir(_, entries) => OutlinePreservedOf(entries);
  }

  lemma {:induction false} OutlinePreservedOf(entries: seq<FsNode>)
    ensures ConvertEntries(entries).Ok? ==> JsonOutlineOf(ConvertEntries(entries).value) == OutlineOf(entries)
    decreases entries, 0
  {
    if entries != [] {
      var init := entries[..|entries| - 1];
      var last := entries[|entries| - 1];
      OutlinePreservedOf(init);
      if Listed(last) && ConvertEntries(entries).Ok? {
        OutlinePreserved(last);
        var cs := ConvertEntries(init).value;
        var j := ConvertNode(last).value;
        assert (cs + [j])[..|cs|] == cs;
      }
    }
  }

  /** Names of the unreadable files of an outline, in order. */
  function Unreadable(items: seq<Item>): seq<string>
  {
    if items == [] then []
    else
      var last := items[|items| - 1];
      Unreadable(items[..|items| - 1]) + (if last.FileItem? && last.text.None? then [last.name] else [])
  }

  lemma {:induction false} UnreadableAppend(a: seq<Item>, b: seq<Item>)
    ensures Unreadable(a + b) == Unreadable(a) + Unreadable(b)
    decreases |b|
  {
    if b != [] {
      var b' := b[..|b| - 1];
      assert (a + b)[..|a + b| - 1] == a + b';
      UnreadableAppend(a, b');
    } else {
      assert a + b == a;
    }
  }

  /**
   * The builder raises iff some kept file in the subtree cannot be read, and then the
   * error names the first such file in depth-first listing order. Files without a
   * source suffix are never opened, so they never cause an error.
   */
  lemma {:induction false} FailsIffUnreadable(n: FsNode)
    ensures ConvertNode(n).Err? <==> Unreadable(Outline(n)) != []
    ensures ConvertNode(n).Err? ==> ConvertNode(n).error == DecodeFailed(Unreadable(Outline(n))[0])
    decreases n, 1
  {
    match n
    case File(_, _) =>
      assert Outline(n)[..0] == [];
    case Dir(name, entries) =>
      FailsIffUnreadableOf(entries);
      UnreadableAppend([DirItem(name)], OutlineOf(entries));
      assert Unreadable([DirItem(name)]) == [] by {
        assert [DirItem(name)][..0] == [];
      }
  }

  lemma {:induction false} FailsIffUnreadableOf(entries: seq<FsNode>)
    ensures ConvertEntries(entries).Err? <==> Unreadable(OutlineOf(entries)) != []
    ensures ConvertEntries(entries).Err? ==>
      ConvertEntries(entries).error == DecodeFailed(Unreadable(OutlineOf(entries))[0])
    decreases entries, 0
  {
    if entries != [] {
      var init := entries[..|entries| - 1];
      var last := entries[|entries| - 1];
      FailsIffUnreadableOf(init);
      if Listed(last) {
        FailsIffUnreadable(last);
        UnreadableAppend(OutlineOf(init), Outline(last));
      } else {
        assert OutlineOf(init) + [] == OutlineOf(init);
        assert OutlineOf(entries) == OutlineOf(init);
      }
    }
  }
}
