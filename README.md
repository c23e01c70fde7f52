# Directory tree builder and file preview helpers

This project models, in Dafny, the two pieces of logic of the code-documentation
application that can be stated independently of its UI and servers:

- **`directory_to_json`** (backend): walks an uploaded directory and builds the nested
  JSON tree the explorer shows. Every directory becomes a `{name, type: "directory",
  children}` node; a file becomes a `{name, type: "file", content}` node only when its
  name ends with one of fifteen source-code suffixes; other files are skipped.
  The filesystem is an input value (`FsNode`): a directory is its name and its listing
  in `os.listdir` order, and a file is its name and the text that reading it yields
  (`None` when the open or the UTF-8 decode fails). The builder is modelled the way the
  code works. `BuildDirectory` is a method whose loop appends to a growing `children`
  sequence and which recurses into subdirectories. It is proved equal to the
  specification function `ConvertNode`, and the lemmas describe that function: shape,
  filter, ordering, content pass-through and when it raises.
- **`getLanguageClass`** and **`formatContent`** (frontend preview panel): the CSS
  highlighting class chosen from a file name's last extension, lowercased; and JSON
  pretty-printing of content whose trimmed text starts with `{` or `[`. `JSON.parse`
  and `JSON.stringify(_, null, 2)` are parameters of the model.

Files: `wrappers.dfy` (Option, Result), `strings.dfy` (suffix test, text after the
last separator), `directory_handler.dfy`, `file_preview.dfy`.

The `JsonNode` datatype has one constructor per dict shape. A directory node therefore
never carries `content`, and a file node never carries `children`. `JsonNode.Type()` gives
the `"type"` field.

The source comment at `Backend/server/directory_handler.py:17` speaks of "error
handling", but the code has no `try`. The model follows the code: an unreadable
matching file raises out of the whole call (`Err(DecodeFailed(name))`).

## Model

| member | source | states |
|---|---|---|
| `Strings.EndsWithAny` | Backend/server/directory_handler.py:18 | `str.endswith` with a tuple is true iff some suffix of the tuple ends the name |
| `Strings.AfterLast` | Frontend/src/components/FilePreview.tsx:39 | the result holds no separator, is a suffix of the input, and is preceded by a separator unless it is the whole input (the last `split` piece, and Python's `posixpath.basename`) |
| `Strings.AfterLastUnique` | Frontend/src/components/FilePreview.tsx:39 | any separator-free suffix that starts the input or follows a separator is the one returned, so the characterisation above is exact |
| `Strings.AfterLastOfJoin` | Frontend/src/components/FilePreview.tsx:39 | splitting `stem + "." + ext` yields `ext` when `ext` has no dot |
| `DirectoryHandler.IsSourceFile` | Backend/server/directory_handler.py:18 | a file is kept iff its name ends with one of the fifteen listed suffixes |
| `DirectoryHandler.SourceSuffixKept` | Backend/server/directory_handler.py:18 | any name ending with a listed suffix is kept, whatever the stem (so `main.py`, `Main.kotlin`, even `.py`) |
| `DirectoryHandler.Basename` | Backend/server/directory_handler.py:6 | the node name holds no `/`, is a suffix of the path, and is preceded by `/` unless it is the whole path (Python's `posixpath.basename`) |
| `DirectoryHandler.ConvertNode` | Backend/server/directory_handler.py:4-26 | a successful conversion keeps the node's name and gives a directory node exactly for a directory; the only error it can raise is a decode failure |
| `DirectoryHandler.ConvertEntries` | Backend/server/directory_handler.py:11-26 | a listing yields at most one child per entry; the only error it can raise is a decode failure |
| `DirectoryHandler.ToJson` | Backend/server/directory_handler.py:4-28 | on success the root is a `"directory"` node named `basename(rootdir)`; it raises `NotADirectory(rootdir)` exactly when the root is a file |
| `DirectoryHandler.SuffixesEndLowerCase` | Backend/server/directory_handler.py:18 | every one of the fifteen suffixes ends in a lower-case letter |
| `DirectoryHandler.UpperCaseSuffixDropped` | Backend/server/directory_handler.py:18 | the filter is case-sensitive: a name ending in an upper-case letter (`A.PY`) is never kept |
| `DirectoryHandler.UnlistedSuffixesDropped` | Backend/server/directory_handler.py:18 | `Main.kt` and `App.tsx` are dropped: `.kt` and `.tsx` are not in the list |
| `DirectoryHandler.ErrorPropagates` | Backend/server/directory_handler.py:11-26 | once an entry of the listing raises, the whole listing raises that same error |
| `DirectoryHandler.BuildDirectory` | Backend/server/directory_handler.py:5-26 | the loop (recursing into subdirectories, reading matching files, skipping the rest, stopping at the first exception) computes exactly `ConvertNode` of the directory |
| `DirectoryHandler.DirectoryToJson` | Backend/server/directory_handler.py:4-28 | the result is `ToJson`; on success it is a `"directory"` node named `basename(rootdir)`; it raises `NotADirectory` exactly when the root is a file |
| `DirectoryHandler.ListedEntries` | Backend/server/directory_handler.py:13-18 | an entry gets a child iff it is a directory or a file with a source suffix |
| `DirectoryHandler.DirectoryShape` | Backend/server/directory_handler.py:5-26 | a built directory node has type "directory", keeps its name, and has one child per listed entry in listing order, the k-th child being the node built for the k-th listed entry |
| `DirectoryHandler.ChildrenFollowListing` | Backend/server/directory_handler.py:11-26 | the children built for a listing correspond one-to-one and in order to its listed entries |
| `DirectoryHandler.OutlineOf` | Backend/server/directory_handler.py:13-18 | every file in the depth-first outline of a listing has a source suffix |
| `DirectoryHandler.OutlinePreserved` | Backend/server/directory_handler.py:11-28 | a successful build has the input's depth-first outline: one directory node per directory at every depth (even one with no matching files), one file node per kept file with that file's name and full text, all in listing order; so the number of file nodes equals the number of kept files in the subtree |
| `DirectoryHandler.OutlinePreservedOf` | Backend/server/directory_handler.py:11-26 | the same for the children built from a listing |
| `DirectoryHandler.FailsIffUnreadable` | Backend/server/directory_handler.py:17-20 | the build raises iff some kept file in the subtree is unreadable, and the error names the first such file in depth-first order; files that are skipped are never opened and never raise |
| `DirectoryHandler.FailsIffUnreadableOf` | Backend/server/directory_handler.py:11-26 | the same for a listing |
| `FilePreview.Extension` | Frontend/src/components/FilePreview.tsx:39 | the extension holds no `.`, is a suffix of the name, and is preceded by `.` unless it is the whole name |
| `FilePreview.ToLowerCase` | Frontend/src/components/FilePreview.tsx:39 | lowercasing keeps the length and maps each character on its own |
| `FilePreview.ClassOfExtension` | Frontend/src/components/FilePreview.tsx:41-57 | the switch always yields one of the six language classes |
| `FilePreview.GetLanguageClass` | Frontend/src/components/FilePreview.tsx:38-58 | the class of any file name is one of the six language classes |
| `FilePreview.ToLowerCaseIdempotent` | Frontend/src/components/FilePreview.tsx:39 | lowercasing twice is lowercasing once |
| `FilePreview.LowerCaseOfSuffix` | Frontend/src/components/FilePreview.tsx:39 | lowercasing a suffix gives the suffix of the lowercased text |
| `FilePreview.LowerCaseKeepsDots` | Frontend/src/components/FilePreview.tsx:39 | lowercasing neither creates nor removes a `.` at any position |
| `FilePreview.NoDotIsOwnExtension` | Frontend/src/components/FilePreview.tsx:39 | a name without a `.` is its own extension |
| `FilePreview.ExtensionOfLowerCase` | Frontend/src/components/FilePreview.tsx:39 | lowercasing commutes with taking the text after the last dot |
| `FilePreview.LanguageClassIgnoresCase` | Frontend/src/components/FilePreview.tsx:38-58 | the class of a name equals the class of its lower-cased name (`App.TSX` is classed like `app.tsx`) |
| `FilePreview.LastExtensionDecides` | Frontend/src/components/FilePreview.tsx:39-56 | only the text after the last dot matters, and a name without a dot is its own extension |
| `FilePreview.UpperCaseTsxIsTypeScript` | Frontend/src/components/FilePreview.tsx:39-46 | `App.TSX` maps to `language-typescript` |
| `FilePreview.BareJsonIsJson` | Frontend/src/components/FilePreview.tsx:39-48 | a file named `json` maps to `language-json` |
| `FilePreview.TrailingDotIsPlaintext` | Frontend/src/components/FilePreview.tsx:39-56 | a name ending in `.` has an empty extension and maps to `language-plaintext` |
| `FilePreview.TrimStart` | Frontend/src/components/FilePreview.tsx:25 | the result is a suffix of the input, everything removed is whitespace, and it does not start with whitespace |
| `FilePreview.TrimEnd` | Frontend/src/components/FilePreview.tsx:25 | the result is a prefix of the input, everything removed is whitespace, and it does not end with whitespace |
| `FilePreview.Trim` | Frontend/src/components/FilePreview.tsx:25 | `trim()` returns a slice of its input with only whitespace before and after it, and the slice neither starts nor ends with whitespace |
| `FilePreview.TrimIsSlice` | Frontend/src/components/FilePreview.tsx:25 | trimming the end of the front-trimmed text leaves the slice that starts where the leading whitespace ends |
| `FilePreview.TrimStartAt` | Frontend/src/components/FilePreview.tsx:25 | trimming the front leaves the text from the first non-whitespace character on |
| `FilePreview.TrimEndKeepsHead` | Frontend/src/components/FilePreview.tsx:25 | trimming the end keeps a non-whitespace first character |
| `FilePreview.TrimmedStartsWith` | Frontend/src/components/FilePreview.tsx:25 | `text.trim().startsWith(c)` holds iff `c` is the first non-whitespace character of `text` |
| `FilePreview.FormatContent` | Frontend/src/components/FilePreview.tsx:23-33 | the preview shows either the text itself or the pretty-printed result of parsing it, never anything else |
| `FilePreview.FormatContentPassThrough` | Frontend/src/components/FilePreview.tsx:23-32 | absent content yields `''`; content whose first non-whitespace character is neither `{` nor `[` is returned unchanged; content that fails to parse is returned unchanged; content starting with `{` or `[` that parses is replaced by its pretty-printed value |
| `FilePreview.FormatContentIdempotent` | Frontend/src/components/FilePreview.tsx:22-33 | formatting already formatted content changes nothing, given that pretty-printed text parses again to a value that prints the same text (not necessarily the same value: `[1e400]` parses to `[Infinity]`, which prints with `null` in its place) and that pretty-printing parsed bracketed text yields bracketed text |

## Left out

- Filesystem access (`os.listdir`, `os.path.isdir`, `open`) is replaced by the input tree `FsNode`. A listing cannot fail inside the tree. The only listing error modelled is a root that is not a directory. A missing root and permission errors are not modelled.
- Text-mode reading is not modelled. A file's `text` is whatever the read returns, so universal-newline translation (`\r\n` to `\n`) is assumed already applied. Decode and read failures are a single `None`.
- Symbolic links, and `os.path.isdir` following them, are not modelled. The tree is assumed finite and acyclic.
- `Basename` follows POSIX `os.path.basename`, the text after the last `/`. Windows path rules are not modelled.
- `FilePreview.ToLowerCase` maps only `A`–`Z` and the Kelvin sign U+212A (to `k`) and leaves every other character unchanged. Every other character either has no lower case, or lowers to text containing a non-ASCII character, so it can never match one of the ASCII extensions. The class `GetLanguageClass` returns is therefore exactly the source's. The lowered string itself is not.
- `JSON.parse` and `JSON.stringify(_, null, 2)` are parameters (`parse`, `prettyPrint`), not definitions. Which texts parse and how they print is not modelled. `JSON.stringify` is assumed never to throw on a parsed value.
- A `null` content (outside the declared `content?: string` type), which would make `trim` throw inside the `try`, is not modelled.
- React rendering of the preview card, the explorer, upload and header components, the Flask and FastAPI servers, the LLM, srcML and Neo4j processing, and the IDE extension are not part of this model.
- The IDE extension's workspace sync (`graphService.ts`, `syncGraph`) is not modelled.
