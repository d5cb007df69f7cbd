/**
 * What main does with the results (generate_manifest.js:73-79): wrap them in
 * `{ files: ... }`, serialise them, and write the document next to the
 * scanned directory as `<basename>_manifest.json`.
 */
module Output {
  import opened Wrappers
  import opened Exclusion
  import opened Tree
  import opened Pool

  const ManifestSuffix: string := "_manifest.json"

  /** `path.basename`: the last component; the file-system root has the empty name. */
  function Basename(p: Path): (r: string)
    ensures p == [] ==> r == ""
    ensures p != [] ==> p == Parent(p) + [r]
  {
    if p == [] then "" else p[|p| - 1]
  }

  /** `path.join(p, '..')`: the parent directory; the root is its own parent. */
  function Parent(p: Path): (r: Path)
    ensures |r| == if p == [] then 0 else |p| - 1
    ensures r == p[..|r|]
  {
    if p == [] then [] else p[..|p| - 1]
  }

  /**
   * `path.basename(absFolder) + '_manifest.json'`: a name longer than the
   * folder's, and one the file filter rejects.
   */
  function ManifestName(root: Path): (r: string)
    ensures |r| > |Basename(root)|
    ensures IsManifestFile(r) && !Kept(r)
  {
    assert Lowered(ManifestPattern) == ManifestPattern;
    assert Basename(root) + ManifestSuffix == (Basename(root) + "_") + ManifestPattern;
    CaseVariantExcluded(Basename(root) + "_", ManifestPattern);
    Basename(root) + ManifestSuffix
  }

  /**
   * `path.join(absFolder, '..', manifestName)`: the manifest named
   * `ManifestName(root)` in the folder's parent.
   */
  function ManifestPath(root: Path): (r: Path)
    ensures Parent(r) == Parent(root) && Basename(r) == ManifestName(root)
    ensures !Kept(Basename(r))
  {
    Parent(root) + [ManifestName(root)]
  }

  /**
   * For any directory other than the file-system root, the manifest is a
   * sibling of the scanned directory: same parent, another name, and not
   * inside the scanned tree.
   */
  lemma ManifestBesideRoot(root: Path)
    requires root != []
    ensures Parent(ManifestPath(root)) == Parent(root)
    ensures Basename(ManifestPath(root)) != Basename(root)
    ensures !(|root| <= |ManifestPath(root)| && ManifestPath(root)[..|root|] == root)
  {
    var m := ManifestPath(root);
    assert |ManifestName(root)| > |Basename(root)|;
    assert |m| == |root| && m[|m| - 1] != root[|root| - 1];
  }

  /**
   * Even where the manifest lands inside the scanned tree (scanning the
   * file-system root), a later scan does not list it: no path getAllFiles
   * returns is the manifest's path.
   */
  lemma ManifestNotListed(list: seq<Node>, root: Path)
    ensures ManifestPath(root) !in AbsPaths(Walk(list, root, root))
  {
    var w := Walk(list, root, root);
    var ps := Paths(list);
    forall k | 0 <= k < |w|
      ensures w[k].abs != ManifestPath(root)
    {
      PathsKept(list, ps[k]);
      assert w[k].abs[|w[k].abs| - 1] == ps[k][|ps[k]| - 1];
    }
  }

  /** One element of the `files` array as `JSON.stringify` prints it. */
  datatype Json = Null | Entry(path: string, md5: string)

  /** `{ files: fileHashes }`. */
  datatype ManifestDoc = ManifestDoc(files: seq<Json>)

  /** `JSON.stringify` of the results array: a hole is printed as `null`. */
  function Render(results: seq<Option<HashResult>>): (r: seq<Json>)
    ensures |r| == |results|
    ensures forall i :: 0 <= i < |r| ==> (r[i] == Null <==> results[i] == None)
    ensures forall i :: 0 <= i < |r| && results[i].Some? ==>
      r[i] == Entry(results[i].value.path, results[i].value.md5)
  {
    seq(|results|, i requires 0 <= i < |results| =>
      match results[i]
      case Some(r) => Entry(r.path, r.md5)
      case None => Null)
  }

  /**
   * Element `i` of the written `files` array is `{ path: rel, md5 }` of file
   * `i` exactly when hashing it gave that digest, and `null` exactly when
   * hashing it failed and some later file succeeded.
   */
  lemma RenderedSlot(files: seq<FileEntry>, hash: Path -> HashOutcome, i: nat, md5: string)
    requires i < |files|
    ensures var doc := Render(Manifest(files, hash));
      ((i < |doc| && doc[i] == Entry(files[i].rel, md5)) <==> hash(files[i].abs) == Digest(md5)) &&
      ((i < |doc| && doc[i] == Null) <==> (hash(files[i].abs).ReadError? && exists j :: i < j < |files| && hash(files[j].abs).Digest?))
  {
    var m := Manifest(files, hash);
    ManifestSlot(files, hash, i);
    ManifestLength(files, hash);
    if hash(files[i].abs).ReadError? && exists j :: i < j < |files| && hash(files[j].abs).Digest? {
      var j :| i < j < |files| && hash(files[j].abs).Digest?;
      ManifestSlot(files, hash, j);
    }
  }

  /**
   * main: enumerate the scan root, hash the files, and produce the manifest's
   * path and document. `sep` is the host's path separator, `concurrency` the
   * CONCURRENCY constant, `schedule` the order in which hashes settle.
   */
  method GenerateManifest(tree: seq<Node>, absFolder: Path, hash: Path -> HashOutcome,
                          concurrency: nat, schedule: seq<nat>, sep: char)
    returns (manifestPath: Path, doc: ManifestDoc)
    requires sep == '/' || sep == '\\'
    ensures manifestPath == ManifestPath(absFolder)
    ensures !Kept(manifestPath[|manifestPath| - 1])
    ensures concurrency > 0 ==> doc == ManifestDoc(Render(Manifest(Walk(tree, absFolder, absFolder), hash)))
    ensures concurrency == 0 ==> doc == ManifestDoc([])
  {
    var files := GetAllFiles(tree, absFolder, absFolder, sep);
    ghost var claims, settled, inFlight;
    var fileHashes;
    fileHashes, claims, settled, inFlight := HashFiles(files, hash, concurrency, schedule);
    doc := ManifestDoc(Render(fileHashes));
    var manifestName := Basename(absFolder) + ManifestSuffix;
    manifestPath := Parent(absFolder) + [manifestName];
  }
}
