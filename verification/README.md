# generate_manifest.js, modelled in Dafny

`generate_manifest.js` is a Node script. It walks a game folder and computes
the MD5 digest of every file. It writes `<folder>_manifest.json` next to the
folder, holding `{ "files": [ { "path", "md5" }, ... ] }`. This project
models its deterministic core and proves properties of it:

- **The file filter** (`exclusion.dfy`, module `Exclusion`). A non-directory
  entry is skipped when its name ends in `manifest.json` (any case) or starts
  with a dot. The case-insensitive regular-expression search is stated
  separately, and a lemma proves it equal to the suffix check.
- **The tree walk** (`tree.dfy`, module `Tree`). `getAllFiles` becomes the
  recursive method `GetAllFiles`, with a loop over an abstract directory
  listing (`Node` = file or subdirectory with its ordered entries). It is
  proved equal to the specification function `Walk`. `Walk` is built on
  `Paths`, the listed component paths in depth-first listing order. `Paths`
  is proved complete, sound and free of duplicates against a lookup-by-path
  definition (`IsKeptFile`). The lemmas also cover ordering, descent into
  hidden directories, and the `/`-separated `rel` path on both host
  separators.
- **The worker pool** (`pool.dfy`, module `Pool`). `hashFiles` runs on one
  thread, and `idx++` runs before the first `await`. So the pool is a class
  `HashPool` holding the cursor `idx`, the sparse `results` array and a ghost
  set of settled indices. `Claim` models `const myIdx = idx++`. `Settle`
  models the code after `await hashFileMD5(abs)`: the slot write on success,
  or the catch block on failure. `HashFiles` starts `min(concurrency, n)`
  workers, as `Array.from` does. It then resumes suspended workers in an
  arbitrary order given by a `schedule` parameter, until all have returned.
  Its contract says the result does not depend on the schedule or on the
  (positive) concurrency. Every index is claimed once, in cursor order, and
  every claim settles once. The array is `Manifest(files, hash)`, which
  depends only on which files hashed successfully.
- **The output** (`output.dfy`, module `Output`). The manifest name and path,
  and the serialised array with holes as `null`. `GenerateManifest` is the
  pipeline of `main` from enumeration to the document.

Paths are sequences of components; the file-system root is the empty
sequence. Hashing is an oracle `hash: Path -> HashOutcome` (a digest or a read
error). The host's path separator (`/` or `\`), the `CONCURRENCY` constant
and the event loop's resumption order are parameters.

On these points the model follows the code, which a reader might expect to behave otherwise:

- A file whose hash fails is not removed from the array. Its slot stays a
  hole and is written as `null`, if a later file succeeded. Failures after
  the last success leave no slot at all, because the array's length is one
  past the highest index written (`ManifestLength`, `RenderedSlot`). Dropping
  the holes gives the successful files in discovery order
  (`ManifestInDiscoveryOrder`).
- `CONCURRENCY` is `os.cpus().length * 2`. Node's `os.cpus()` may return an
  empty array when no CPU information is available, and then no worker
  starts: the manifest is empty whatever the folder holds. `HashFiles`
  states this case (`concurrency == 0 ==> results == []`) rather than
  assuming a positive worker count.
- Symbolic links and special files are not directories, so `getAllFiles`
  treats them as files. The model's `File` node covers every non-directory
  entry.
- The name test runs on the entry name alone. On POSIX a name may contain
  `\`, and replacing backslashes then merges `a\b` in the root with `b`
  inside `a` (`BackslashNamesShareRel`). The full paths stay distinct.

## Model

| member | source | states |
|---|---|---|
| Exclusion.Kept | generate_manifest.js:22 | a non-directory entry is listed exactly when the case-insensitive regular expression finds no match and the name does not start with `.` |
| Exclusion.RegexTestIsSuffixCheck | generate_manifest.js:22 | `/manifest\.json$/i.test(name)` holds exactly when the name's last 13 characters equal `manifest.json` after ASCII case folding |
| Exclusion.CaseVariantExcluded | generate_manifest.js:22 | any name ending in any case spelling of `manifest.json` (`MANIFEST.JSON`, `x_Manifest.Json`) is not kept |
| Exclusion.HiddenExcluded | generate_manifest.js:22 | any name starting with `.` is not kept |
| Tree.ToSlash | generate_manifest.js:17 | `.replace(/\\/g, '/')` keeps the length, turns each backslash into `/`, leaves other characters alone, and leaves no backslash |
| Tree.RelPathPortable | generate_manifest.js:16-17 | `Join`, the host-separator output of `path.join`/`path.relative`, followed by the backslash replacement gives the same `rel` (`SlashPath`) whether the separator is `\` (Windows) or `/` (POSIX) |
| Tree.SlashPathSplit | generate_manifest.js:16-17 | when no component holds `/` or `\`, splitting `rel` at `/` gives back the path's components |
| Tree.BackslashNamesShareRel | generate_manifest.js:17 | for any `a` and `b`, a POSIX file named `a\b` gets the same `rel` as the file `b` inside directory `a` |
| Tree.NodePaths | generate_manifest.js:16-24 | the paths listed for one entry: a kept file itself, or a directory's files prefixed by its name; each is non-empty and starts with the entry's name |
| Tree.Paths | generate_manifest.js:15-26 | the paths listed for a directory listing, entry by entry in listing order; each is non-empty |
| Tree.PathsKept | generate_manifest.js:18-24 | every listed path is non-empty and its last component passes the filter |
| Tree.PathsComplete | generate_manifest.js:13-27 | every path that leads to a kept regular file is listed, including files inside hidden directories |
| Tree.PathsSound | generate_manifest.js:13-27 | in a tree with unique names per directory, every listed path leads to a kept regular file |
| Tree.PathsDistinct | generate_manifest.js:13-27 | in a tree with unique names per directory, no path is listed twice |
| Tree.PathsAppend | generate_manifest.js:15-26 | the listing of a directory split in two is the listing of the first part followed by that of the second (listing order is kept) |
| Tree.SubtreeInPlace | generate_manifest.js:18-19 | a subdirectory's files, whatever its name, appear contiguously where the subdirectory stands in its parent's listing, each prefixed by its name |
| Tree.Walk | generate_manifest.js:16-23 | the `{abs, rel}` entries getAllFiles returns: entry `k` has the `k`-th listed path below `dir` as `abs`, and its `rel` holds no backslash |
| Tree.GetAllFiles | generate_manifest.js:12-28 | the loop with recursion returns exactly `Walk(list, dir, baseDir)`, on either host separator |
| Tree.WalkExactlyOnce | generate_manifest.js:12-28 | every returned entry is a kept file below `dir` whose `rel` is its `/`-joined path from the base with no backslash; every kept file is returned; no full path is returned twice |
| Tree.ExampleWalk | generate_manifest.js:12-28 | for `a.txt`, `b/c.bin`, `MANIFEST.JSON`, `.hidden`, `.git/config` the walk returns `a.txt`, `b/c.bin`, `.git/config` in that order |
| Pool.Outcome | generate_manifest.js:46-53 | what settling file `i` writes: `{path: rel, md5}` exactly when its hash resolved with `md5`, nothing when it was rejected |
| Pool.HighWater | generate_manifest.js:49 | the array length after writes to slots: zero or one past a successful index, with no successful index at or above it |
| Pool.Store | generate_manifest.js:49 | `results[myIdx] = v` sets that slot, grows the array to `myIdx + 1` with holes in between if it was shorter, and changes nothing else |
| Pool.Slots | generate_manifest.js:47-53 | the results array once a set of files has settled: no longer than the file list, slot `i` filled exactly when file `i` settled successfully (with its outcome), last slot filled, and no success beyond the length |
| Pool.Manifest | generate_manifest.js:56-59 | the array hashFiles resolves to once every file settled: no longer than the file list, and empty or ending in a filled slot |
| Pool.StoreSettles | generate_manifest.js:47-49 | a successful settle turns the array for settled set `D` into the array for `D + {i}` |
| Pool.FailureLeavesSlots | generate_manifest.js:51-53 | a failed settle leaves the array as it was, so the loop goes on with the array unchanged |
| Pool.HashPool.constructor | generate_manifest.js:41-42 | the pool starts with `idx = 0`, an empty array and nothing settled |
| Pool.HashPool.Claim | generate_manifest.js:44-45 | the claim returns the current cursor and increments it; the array is untouched |
| Pool.HashPool.Settle | generate_manifest.js:46-53 | slot `myIdx` receives `{path: rel, md5}` on success and nothing on failure; the array stays the one determined by the settled set |
| Pool.ResumeAndClaim | generate_manifest.js:44-48 | a worker that settles and claims the next index keeps each index claimed once and either settled or awaited by one worker |
| Pool.ResumeAndReturn | generate_manifest.js:44 | a worker that settles and finds `idx` at `files.length` returns, keeping the same bookkeeping |
| Pool.Resume | generate_manifest.js:44-54 | one resumption of the worker awaiting `pending[pick]`: that index settles (`completed` and `settled` grow by it, `results` is stored or kept as `Settle` says); while files remain the worker claims the old cursor, which replaces its entry in `pending` and is appended to `claims`; otherwise the worker leaves `pending` and nothing is claimed |
| Pool.AllSettled | generate_manifest.js:57 | once no worker is suspended, every claimed index has settled exactly once |
| Pool.HashFiles | generate_manifest.js:40-60 | `min(concurrency, n)` hashes are in flight once the workers have started, and never more after any resumption; with any resumption order, indices `0..n-1` are claimed once in order and each settles once; the result is `Manifest(files, hash)`, or `[]` with no worker |
| Pool.ManifestOutcome | generate_manifest.js:47-53 | below the array's length, slot `i` is file `i`'s outcome; beyond it, every file failed |
| Pool.ManifestSlot | generate_manifest.js:47-53 | a successful file `i` is in slot `i` as `{path: rel, md5}`; a failed file's slot, if any, is empty |
| Pool.ManifestLength | generate_manifest.js:49 | the array is empty exactly when no file hashed; otherwise its last slot is filled and every later file failed |
| Pool.CompactPrefix | generate_manifest.js:40-60 | dropping the holes from a prefix of the array gives the successful files of that prefix, in order |
| Pool.ManifestInDiscoveryOrder | generate_manifest.js:40-60 | dropping the holes from the whole array gives one entry per successful file, in discovery order |
| Output.Basename | generate_manifest.js:77 | `path.basename`: the last component, so a non-root path is its parent plus its basename; the root's basename is empty |
| Output.Parent | generate_manifest.js:78 | the `'..'` of `path.join`: the path one component shorter, a prefix of it; the root is its own parent |
| Output.ManifestName | generate_manifest.js:77 | `basename + "_manifest.json"` is longer than the folder's name and is a name the line-22 filter rejects |
| Output.ManifestPath | generate_manifest.js:78 | the manifest lies in the folder's parent under `ManifestName(folder)`, so its name is filtered out |
| Output.ManifestBesideRoot | generate_manifest.js:77-78 | for any folder but the root, the manifest has the folder's parent, a different name, and lies outside the folder |
| Output.ManifestNotListed | generate_manifest.js:77-78 | no path the walk returns is the manifest's path, even when scanning the root places the manifest inside the tree |
| Output.Render | generate_manifest.js:79 | `JSON.stringify` of the array: same length, `null` exactly at the holes, `{path, md5}` at each filled slot |
| Output.RenderedSlot | generate_manifest.js:79 | element `i` of the written array is `{path, md5}` exactly when file `i` hashed to that digest; it is `null` exactly when file `i` failed and a later file succeeded |
| Output.GenerateManifest | generate_manifest.js:73-79 | the manifest goes to `ManifestPath(folder)`, whose name the filter rejects; the document renders `Manifest(Walk(tree, folder, folder), hash)`, or is empty with no worker |

## Left out

- `hashFileMD5` (generate_manifest.js:30-38) is an oracle from a file's path to a digest or a read error. MD5 and streaming reads are not modelled. The oracle gives one outcome per path, so a file changing between two reads is outside the model.
- File-system calls are replaced by an abstract tree and component paths: `fs.readdirSync`, `existsSync`/`statSync`, `writeFileSync`, `path.resolve`/`join`/`relative`. Writing the file is not modelled; `GenerateManifest` returns the path and the document.
- Interleavings inside a hash are not modelled. Node runs one callback at a time, so a worker's hash is one step: resumption, then the slot write. Only the order in which workers resume varies, through `schedule`.
- Console output is not modelled (lines 50, 52, 58, 74, 80). The progress line prints `myIdx + 1`, which is not a count of completed files.
- Argument checking, the directory check and exit codes in `main` are not modelled (lines 63-72, 83-86).
- `fs.readdirSync` (line 14) throws when a directory cannot be read or disappears during the walk. `getAllFiles` does not catch this, so the run ends through lines 83-86 with exit code 1 and writes no manifest. The model assumes every directory of the tree can be listed in full.
- A read that never ends leaves `Promise.all` (line 57) pending forever, and no manifest is written. An example is a FIFO, which `getAllFiles` keeps as a file. The model's hash oracle always settles, so `HashFiles` always terminates.
- JSON whitespace is not modelled. `Render` keeps the array structure, including `null` for holes.
- `CONCURRENCY` is a natural-number parameter, not derived from `os.cpus()`.
- Tree.PathsSound, Tree.PathsDistinct and Tree.WalkExactlyOnce require each directory to list a name at most once. File systems guarantee this. Completeness (`PathsComplete`) holds without it.
