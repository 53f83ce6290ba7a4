/**
 * `build_index.py`: walk the dataset directory, keep the image files,
 * encode each one, and build the flat index over the embeddings together
 * with the list of paths persisted beside it.
 *
 * The directory walk is its sequence of `(root, files)` entries, in the
 * order `os.walk` yields them; `os.path.join` and the image encoder
 * (opening, preprocessing, the neural model and L2 normalisation) are
 * opaque functions passed in. An encoder result of `None` stands for an
 * image that cannot be opened, which aborts the script.
 */
module BuildIndex {
  import opened Wrappers
  import opened Strings
  import opened VectorIndex

  /** One entry of the walk: a directory and the names of the files in it. */
  datatype WalkEntry = WalkEntry(root: Path, files: seq<string>)

  /** Why a build stops without an index. */
  datatype BuildError =
    | UnreadableImage(path: Path)  // `Image.open(path)` fails (line 38)
    | InconsistentDimension        // `np.array` over embeddings of differing lengths (line 51)
    | NoImages                     // `embeddings.shape[1]` of an empty array (line 54)

  /** The embeddings of the matched images, aligned with their paths. */
  datatype Listing = Listing(paths: seq<Path>, embeddings: seq<Vector>)

  /** The built index and the path list written next to it. */
  datatype Catalog = Catalog(index: FlatIndex, paths: seq<Path>)

  // ---------------------------------------------------------------------
  // The extension filter (line 34)

  /** `file.lower().endswith((".jpg", ".png", ".jpeg"))`. */
  predicate IsImageFile(file: string) {
    var name := Lower(file);
    EndsWith(name, ".jpg") || EndsWith(name, ".png") || EndsWith(name, ".jpeg")
  }

  /** The filter ignores case: a name and its lower-case form are kept or dropped together. */
  lemma ImageFileIgnoresCase(file: string)
    ensures IsImageFile(Lower(file)) <==> IsImageFile(file)
  {
    LowerIdempotent(file);
  }

  /** Upper-case extensions pass, other extensions and a bare `jpg` do not. */
  lemma ImageFileExamples()
    ensures IsImageFile("shirt.JPG")
    ensures IsImageFile("a.b.Jpeg")
    ensures !IsImageFile("notes.txt")
    ensures !IsImageFile("shirt.gif")
    ensures !IsImageFile("jpg")
  {
    assert Lower("shirt.JPG")[5..] == ".jpg";
    assert Lower("a.b.Jpeg")[3..] == ".jpeg";
    assert Lower("notes.txt")[5..] == ".txt";
    assert Lower("notes.txt")[4..] == "s.txt";
    assert Lower("shirt.gif")[5..] == ".gif";
    assert Lower("shirt.gif")[4..] == "t.gif";
  }

  // ---------------------------------------------------------------------
  // The walk (lines 32-36)

  /** The paths recorded for the files of one directory, in the order of `files`. */
  function MatchedIn(root: Path, files: seq<string>, join: (Path, string) -> Path): seq<Path> {
    if files == [] then []
    else
      var f := files[|files| - 1];
      MatchedIn(root, files[..|files| - 1], join) + (if IsImageFile(f) then [join(root, f)] else [])
  }

  /** The paths recorded for the whole walk, directory by directory. */
  function MatchedPaths(walk: seq<WalkEntry>, join: (Path, string) -> Path): seq<Path> {
    if walk == [] then []
    else
      var e := walk[|walk| - 1];
      MatchedPaths(walk[..|walk| - 1], join) + MatchedIn(e.root, e.files, join)
  }

  /** Paths are recorded in traversal order: the files of `a` before those of `b`. */
  lemma {:induction false} MatchedInAppend(root: Path, a: seq<string>, b: seq<string>, join: (Path, string) -> Path)
    ensures MatchedIn(root, a + b, join) == MatchedIn(root, a, join) + MatchedIn(root, b, join)
    decreases |b|
  {
    if b != [] {
      var b' := b[..|b| - 1];
      assert (a + b)[..|a + b| - 1] == a + b';
      MatchedInAppend(root, a, b', join);
    } else {
      assert a + b == a;
    }
  }

  /** Directories are visited in walk order: the entries of `a` before those of `b`. */
  lemma {:induction false} MatchedPathsAppend(a: seq<WalkEntry>, b: seq<WalkEntry>, join: (Path, string) -> Path)
    ensures MatchedPaths(a + b, join) == MatchedPaths(a, join) + MatchedPaths(b, join)
    decreases |b|
  {
    if b != [] {
      var b' := b[..|b| - 1];
      assert (a + b)[..|a + b| - 1] == a + b';
      MatchedPathsAppend(a, b', join);
    } else {
      assert a + b == a;
    }
  }

  /** A path is recorded for a directory exactly when one of its files is an image that joins to it. */
  lemma {:induction false} MatchedInMembers(root: Path, files: seq<string>, join: (Path, string) -> Path, p: Path)
    ensures p in MatchedIn(root, files, join) <==>
      exists k :: 0 <= k < |files| && IsImageFile(files[k]) && p == join(root, files[k])
  {
    if files != [] {
      var init := files[..|files| - 1];
      MatchedInMembers(root, init, join, p);
      if p in MatchedIn(root, files, join) && p !in MatchedIn(root, init, join) {
        assert IsImageFile(files[|files| - 1]) && p == join(root, files[|files| - 1]);
      }
      if exists k :: 0 <= k < |files| && IsImageFile(files[k]) && p == join(root, files[k]) {
        var k :| 0 <= k < |files| && IsImageFile(files[k]) && p == join(root, files[k]);
        if k < |init| {
          assert init[k] == files[k];
        }
      }
    }
  }

  /** Files that are not images record nothing: appending one leaves the recorded paths as they were. */
  lemma NonImagesContributeNothing(root: Path, files: seq<string>, others: seq<string>, join: (Path, string) -> Path)
    requires forall k :: 0 <= k < |others| ==> !IsImageFile(others[k])
    ensures MatchedIn(root, files + others, join) == MatchedIn(root, files, join)
  {
    MatchedInAppend(root, files, others, join);
    NoImagesNoPaths(root, others, join);
  }

  /** A directory without image files records no path. */
  lemma {:induction false} NoImagesNoPaths(root: Path, files: seq<string>, join: (Path, string) -> Path)
    requires forall k :: 0 <= k < |files| ==> !IsImageFile(files[k])
    ensures MatchedIn(root, files, join) == []
  {
    if files != [] {
      NoImagesNoPaths(root, files[..|files| - 1], join);
    }
  }

  /** At most one path per file. */
  lemma {:induction false} MatchedInBound(root: Path, files: seq<string>, join: (Path, string) -> Path)
    ensures |MatchedIn(root, files, join)| <= |files|
  {
    if files != [] {
      MatchedInBound(root, files[..|files| - 1], join);
    }
  }

  // ---------------------------------------------------------------------
  // Encoding (lines 38-46)

  /**
   * Encoding the recorded paths in order: the embeddings, one per path,
   * or the first path whose image cannot be read.
   */
  function EncodeAll(paths: seq<Path>, encode: Path -> Option<Vector>): Result<seq<Vector>, BuildError> {
    if paths == [] then Success([])
    else
      var p := paths[|paths| - 1];
      match EncodeAll(paths[..|paths| - 1], encode)
      case Failure(e) => Failure(e)
      case Success(vs) =>
        match encode(p)
        case None => Failure(UnreadableImage(p))
        case Some(v) => Success(vs + [v])
  }

  /**
   * A successful encoding keeps paths and embeddings aligned: there is one
   * embedding per path and the `k`-th is the encoder's output for the
   * `k`-th path.
   */
  lemma {:induction false} EncodeAllAligned(paths: seq<Path>, encode: Path -> Option<Vector>)
    requires EncodeAll(paths, encode).Success?
    ensures |EncodeAll(paths, encode).value| == |paths|
    ensures forall k :: 0 <= k < |paths| ==> encode(paths[k]) == Some(EncodeAll(paths, encode).value[k])
  {
    if paths != [] {
      var init := paths[..|paths| - 1];
      EncodeAllAligned(init, encode);
      assert forall k :: 0 <= k < |init| ==> paths[k] == init[k];
    }
  }

  /** Encoding can only fail on an image it was given. */
  lemma {:induction false} EncodeAllErrors(paths: seq<Path>, encode: Path -> Option<Vector>)
    ensures EncodeAll(paths, encode).Failure? ==>
      EncodeAll(paths, encode).error.UnreadableImage? && EncodeAll(paths, encode).error.path in paths
  {
    if paths != [] {
      var init := paths[..|paths| - 1];
      EncodeAllErrors(init, encode);
      if EncodeAll(init, encode).Failure? {
        assert EncodeAll(init, encode).error.path in paths;
      }
    }
  }

  /** Encoding fails exactly when some recorded image cannot be read. */
  lemma {:induction false} EncodeAllFails(paths: seq<Path>, encode: Path -> Option<Vector>)
    ensures EncodeAll(paths, encode).Failure? <==> exists k :: 0 <= k < |paths| && encode(paths[k]).None?
  {
    if paths != [] {
      var init := paths[..|paths| - 1];
      EncodeAllFails(init, encode);
      if exists k :: 0 <= k < |paths| && encode(paths[k]).None? {
        var k :| 0 <= k < |paths| && encode(paths[k]).None?;
        if k < |init| {
          assert init[k] == paths[k];
        }
      }
      if EncodeAll(init, encode).Failure? {
        var k :| 0 <= k < |init| && encode(init[k]).None?;
        assert paths[k] == init[k];
      }
    }
  }

  /** The error names the first unreadable image: every path before it was encoded. */
  lemma {:induction false} EncodeAllFirstFailure(paths: seq<Path>, encode: Path -> Option<Vector>)
    requires EncodeAll(paths, encode).Failure?
    ensures exists k :: (0 <= k < |paths| && EncodeAll(paths, encode).error == UnreadableImage(paths[k]) &&
                         encode(paths[k]).None? && forall j :: 0 <= j < k ==> encode(paths[j]).Some?)
  {
    var init := paths[..|paths| - 1];
    if EncodeAll(init, encode).Failure? {
      EncodeAllFirstFailure(init, encode);
      var k :| 0 <= k < |init| && EncodeAll(init, encode).error == UnreadableImage(init[k]) &&
        encode(init[k]).None? && forall j :: 0 <= j < k ==> encode(init[j]).Some?;
      assert forall j :: 0 <= j <= k ==> paths[j] == init[j];
    } else {
      EncodeAllAligned(init, encode);
      var k := |paths| - 1;
      assert forall j :: 0 <= j < k ==> paths[j] == init[j];
    }
  }

  /** Once encoding has failed, later paths do not change the error. */
  lemma {:induction false} EncodeAllFailureSticks(paths: seq<Path>, more: seq<Path>, encode: Path -> Option<Vector>)
    requires EncodeAll(paths, encode).Failure?
    ensures EncodeAll(paths + more, encode) == EncodeAll(paths, encode)
    decreases |more|
  {
    if more == [] {
      assert paths + more == paths;
    } else {
      var more' := more[..|more| - 1];
      assert (paths + more)[..|paths + more| - 1] == paths + more';
      EncodeAllFailureSticks(paths, more', encode);
    }
  }

  // ---------------------------------------------------------------------
  // The loops of lines 32-46

  /**
   * The outer loop of lines 32-46: the directories of the walk, in order.
   * The lists are those of the whole walk; the build stops at the first
   * image that cannot be read.
   */
  method Enumerate(walk: seq<WalkEntry>, join: (Path, string) -> Path, encode: Path -> Option<Vector>)
    returns (r: Result<Listing, BuildError>)
    ensures r.Success? ==>
      r.value.paths == MatchedPaths(walk, join) && EncodeAll(r.value.paths, encode) == Success(r.value.embeddings)
    ensures r.Failure? ==> EncodeAll(MatchedPaths(walk, join), encode) == Failure(r.error)
  {
    var listing := Listing([], []);
    for i := 0 to |walk|
      invariant listing.paths == MatchedPaths(walk[..i], join)
      invariant EncodeAll(listing.paths, encode) == Success(listing.embeddings)
    {
      var entry := walk[i];
      MatchedPathsStep(walk, i, join);
      var scanned := ScanDirectory(entry.root, entry.files, join, encode, listing);
      if scanned.Failure? {
        FailureIsFinal(walk, i + 1, join, encode);
        return Failure(scanned.error);
      }
      listing := scanned.value;
    }
    assert walk[..|walk|] == walk;
    return Success(listing);
  }

  /**
   * The inner loop of lines 33-46 over the files of one directory: for
   * each image file the joined path is appended, then its embedding.
   */
  method ScanDirectory(root: Path, files: seq<string>, join: (Path, string) -> Path, encode: Path -> Option<Vector>,
                       listing: Listing)
    returns (r: Result<Listing, BuildError>)
    requires EncodeAll(listing.paths, encode) == Success(listing.embeddings)
    ensures r.Success? ==>
      r.value.paths == listing.paths + MatchedIn(root, files, join) &&
      EncodeAll(r.value.paths, encode) == Success(r.value.embeddings)
    ensures r.Failure? ==> EncodeAll(listing.paths + MatchedIn(root, files, join), encode) == Failure(r.error)
  {
    var imagePaths := listing.paths;
    var embeddings := listing.embeddings;
    for j := 0 to |files|
      invariant imagePaths == listing.paths + MatchedIn(root, files[..j], join)
      invariant EncodeAll(imagePaths, encode) == Success(embeddings)
    {
      var file := files[j];
      MatchedInStep(root, files, j, join);
      if IsImageFile(file) {
        var path := join(root, file);
        EncodeAllStep(imagePaths, path, encode);
        imagePaths := imagePaths + [path];
        var emb := encode(path);
        if emb.None? {
          assert imagePaths == listing.paths + MatchedIn(root, files[..j + 1], join);
          assert EncodeAll(imagePaths, encode) == Failure(UnreadableImage(path));
          ScanFailureIsFinal(listing.paths, root, files, j, join, encode);
          return Failure(UnreadableImage(path));
        }
        embeddings := embeddings + [emb.value];
      }
    }
    assert files[..|files|] == files;
    return Success(Listing(imagePaths, embeddings));
  }

  /** One more file of the current directory. */
  lemma MatchedInStep(root: Path, files: seq<string>, j: nat, join: (Path, string) -> Path)
    requires j < |files|
    ensures MatchedIn(root, files[..j + 1], join) ==
      MatchedIn(root, files[..j], join) + (if IsImageFile(files[j]) then [join(root, files[j])] else [])
  {
    assert files[..j + 1][..j] == files[..j];
  }

  /** Encoding one more path after a successful prefix. */
  lemma EncodeAllStep(paths: seq<Path>, p: Path, encode: Path -> Option<Vector>)
    requires EncodeAll(paths, encode).Success?
    ensures EncodeAll(paths + [p], encode) ==
      match encode(p)
      case None => Failure(UnreadableImage(p))
      case Some(v) => Success(EncodeAll(paths, encode).value + [v])
  {
    assert (paths + [p])[..|paths|] == paths;
  }

  /** A failure at file `j` of a directory is the failure of the whole directory. */
  lemma ScanFailureIsFinal(prefix: seq<Path>, root: Path, files: seq<string>, j: nat, join: (Path, string) -> Path,
                           encode: Path -> Option<Vector>)
    requires j < |files|
    requires EncodeAll(prefix + MatchedIn(root, files[..j + 1], join), encode).Failure?
    ensures EncodeAll(prefix + MatchedIn(root, files, join), encode) ==
      EncodeAll(prefix + MatchedIn(root, files[..j + 1], join), encode)
  {
    var done := MatchedIn(root, files[..j + 1], join);
    var rest := MatchedIn(root, files[j + 1..], join);
    MatchedInAppend(root, files[..j + 1], files[j + 1..], join);
    assert files[..j + 1] + files[j + 1..] == files;
    EncodeAllFailureSticks(prefix + done, rest, encode);
    assert prefix + done + rest == prefix + (done + rest);
  }

  /** One more directory of the walk. */
  lemma MatchedPathsStep(walk: seq<WalkEntry>, i: nat, join: (Path, string) -> Path)
    requires i < |walk|
    ensures MatchedPaths(walk[..i + 1], join) == MatchedPaths(walk[..i], join) + MatchedIn(walk[i].root, walk[i].files, join)
  {
    assert walk[..i + 1][..i] == walk[..i];
  }

  /** A failure within the first `i` directories is the failure of the whole walk. */
  lemma FailureIsFinal(walk: seq<WalkEntry>, i: nat, join: (Path, string) -> Path, encode: Path -> Option<Vector>)
    requires i <= |walk|
    requires EncodeAll(MatchedPaths(walk[..i], join), encode).Failure?
    ensures EncodeAll(MatchedPaths(walk, join), encode) == EncodeAll(MatchedPaths(walk[..i], join), encode)
  {
    MatchedPathsAppend(walk[..i], walk[i..], join);
    assert walk[..i] + walk[i..] == walk;
    EncodeAllFailureSticks(MatchedPaths(walk[..i], join), MatchedPaths(walk[i..], join), encode);
  }

  // ---------------------------------------------------------------------
  // Building the index (lines 51-55, 63-64)

  /**
   * The outcome of the whole script: the listing, then the stacked
   * embeddings (which must share one length), then an index of that
   * dimension holding them, which needs at least one image.
   */
  method Build(walk: seq<WalkEntry>, join: (Path, string) -> Path, encode: Path -> Option<Vector>)
    returns (r: Result<Catalog, BuildError>)
    ensures r.Success? ==>
      fresh(r.value.index) && r.value.index.Valid() &&
      r.value.paths == MatchedPaths(walk, join) && r.value.paths != [] &&
      EncodeAll(r.value.paths, encode) == Success(r.value.index.rows) &&
      r.value.index.Size() == |r.value.paths| &&
      r.value.index.d == |r.value.index.rows[0]|
    ensures r == Failure(NoImages) <==>
      MatchedPaths(walk, join) == [] && EncodeAll(MatchedPaths(walk, join), encode).Success?
    ensures r == Failure(InconsistentDimension) <==>
      match EncodeAll(MatchedPaths(walk, join), encode)
      case Success(vs) => vs != [] && !AllOfDimension(vs, |vs[0]|)
      case Failure(_) => false
    ensures r.Failure? && r.error.UnreadableImage? <==> EncodeAll(MatchedPaths(walk, join), encode).Failure?
  {
    var listing := Enumerate(walk, join, encode);
    EncodeAllErrors(MatchedPaths(walk, join), encode);
    if listing.Failure? {
      return Failure(listing.error);
    }
    var paths := listing.value.paths;
    var embeddings := listing.value.embeddings;
    EncodeAllAligned(paths, encode);
    if embeddings != [] && !AllOfDimension(embeddings, |embeddings[0]|) {
      return Failure(InconsistentDimension);
    }
    if embeddings == [] {
      return Failure(NoImages);
    }
    var index := new FlatIndex(|embeddings[0]|);
    index.Add(embeddings);
    assert index.rows == embeddings;
    return Success(Catalog(index, paths));
  }
}
