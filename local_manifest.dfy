/** The local-filesystem manifest provider, the catch-all last link of the
    resolution chain: it claims every url and resolves it by canonicalising
    it as a path, absolute or relative to the current directory.

    The filesystem is abstract: a current directory and the set of paths that
    exist, each a canonical absolute path given by its segments (the root is
    the empty sequence). There are no symbolic links. */
module LocalManifest {
  import opened Wrappers
  import opened PathText

  /** A canonical absolute path, as its segments: ["usr", "share"] is /usr/share. */
  type Path = seq<string>

  /** A segment of a canonical path: non-empty, no separator and no NUL, not
      "." or "..". */
  predicate IsName(s: string) {
    s != [] && s != "." && s != ".." && '/' !in s && '\0' !in s
  }

  predicate IsCanonical(p: Path) {
    forall i :: 0 <= i < |p| ==> IsName(p[i])
  }

  datatype FileSystem = FileSystem(cwd: Path, existing: set<Path>)

  /** A filesystem as the operating system presents one: the root and the
      current directory exist, every path is canonical, and every ancestor of
      an existing path exists. */
  ghost predicate Valid(fs: FileSystem) {
    && [] in fs.existing
    && fs.cwd in fs.existing
    && (forall p :: p in fs.existing ==> IsCanonical(p))
    && (forall p, k :: p in fs.existing && 0 <= k <= |p| ==> p[..k] in fs.existing)
  }

  /** The textual form of a path with a leading '/' before every segment:
      "/usr/share" for ["usr", "share"], "" for the root. */
  function Join(p: Path): string
    decreases |p|
  {
    if p == [] then "" else Join(p[..|p| - 1]) + "/" + p[|p| - 1]
  }

  /** The textual form of a path; the root is "/". */
  function Render(p: Path): string {
    if p == [] then "/" else Join(p)
  }

  /** `std::io::Error` from `canonicalize`; its kind is not modelled. */
  datatype IoError = NotFound

  /** Canonicalisation from the directory `cur` over the remaining pieces: an
      empty piece or "." stays, ".." goes up (the root is its own parent), and
      a name descends, which fails when the path reached does not exist. Each
      piece adds at most one segment, and on a valid filesystem a walk from an
      existing directory only reaches existing paths. */
  function Walk(fs: FileSystem, cur: Path, pieces: seq<string>): (r: Result<Path, IoError>)
    ensures r.Ok? ==> |r.value| <= |cur| + |pieces|
    ensures r.Ok? && Valid(fs) && cur in fs.existing ==> r.value in fs.existing
    decreases |pieces|
  {
    if pieces == [] then Ok(cur)
    else
      assert Valid(fs) && cur in fs.existing && cur != [] ==> cur[..|cur| - 1] in fs.existing;
      var s := pieces[0];
      if s == "" || s == "." then Walk(fs, cur, pieces[1..])
      else if s == ".." then Walk(fs, if cur == [] then [] else cur[..|cur| - 1], pieces[1..])
      else if cur + [s] in fs.existing then Walk(fs, cur + [s], pieces[1..])
      else Err(NotFound)
  }

  /** `PathBuf::from(url).canonicalize()`: the empty path does not exist; an
      absolute url is walked from the root, a relative one from the current
      directory. On a valid filesystem the path returned exists and is
      canonical. */
  function Canonicalize(fs: FileSystem, url: string): (r: Result<Path, IoError>)
    ensures url == [] ==> r == Err(NotFound)
    ensures r.Ok? && Valid(fs) ==> r.value in fs.existing && IsCanonical(r.value)
  {
    if url == [] then Err(NotFound)
    else Walk(fs, if url[0] == '/' then [] else fs.cwd, Split(url))
  }

  /** The errors of a manifest provider that this provider may report. */
  datatype ManifestProviderError = NoResolution

  /** `looks_familiar`: the fallback claims every url. */
  function LooksFamiliar(url: string): (r: bool)
    ensures r
  {
    true
  }

  /** `resolve`: canonicalise, and turn any failure into NoResolution. It
      succeeds exactly when canonicalisation does, with the same path; on a
      valid filesystem whatever it returns exists and is canonical. */
  function Resolve(fs: FileSystem, url: string): (r: Result<Path, ManifestProviderError>)
    ensures r.Ok? <==> Canonicalize(fs, url).Ok?
    ensures r.Ok? && Valid(fs) ==> r.value in fs.existing && IsCanonical(r.value)
    ensures r.Ok? ==> r.value == Canonicalize(fs, url).value
    ensures r.Err? ==> r.error == NoResolution
  {
    match Canonicalize(fs, url)
    case Ok(p) => Ok(p)
    case Err(_) => Err(NoResolution)
  }

  // ---------------------------------------------------------------------
  // Splitting and rendering

  /** A rendered path splits into an empty piece followed by its segments. */
  lemma {:induction false} SplitJoin(p: Path)
    requires IsCanonical(p)
    ensures Split(Join(p)) == [""] + p
    decreases |p|
  {
    if p != [] {
      var q := p[..|p| - 1];
      SplitJoin(q);
      SplitConcat(Join(q), p[|p| - 1]);
      SplitName(p[|p| - 1]);
      assert q + [p[|p| - 1]] == p;
    }
  }

  lemma RootSplit()
    ensures Split("/") == ["", ""]
  {
    assert "/"[1..] == "";
  }

  lemma {:induction false} JoinStartsWithSlash(p: Path)
    requires p != []
    ensures Join(p) != [] && Join(p)[0] == '/'
    decreases |p|
  {
    if |p| > 1 {
      JoinStartsWithSlash(p[..|p| - 1]);
    }
  }

  // ---------------------------------------------------------------------
  // Walking

  /** Walking the segments of an existing path descends to it. */
  lemma {:induction false} WalkExisting(fs: FileSystem, cur: Path, pieces: seq<string>)
    requires Valid(fs) && cur + pieces in fs.existing
    ensures Walk(fs, cur, pieces) == Ok(cur + pieces)
    decreases |pieces|
  {
    if pieces != [] {
      var whole := cur + pieces;
      assert whole[|cur|] == pieces[0];
      assert IsName(pieces[0]);
      assert whole[..|cur| + 1] == cur + [pieces[0]];
      assert whole[..|cur| + 1] in fs.existing;
      assert (cur + [pieces[0]]) + pieces[1..] == whole;
      WalkExisting(fs, cur + [pieces[0]], pieces[1..]);
    } else {
      assert cur + pieces == cur;
    }
  }

  /** Walking a + b is walking a, then walking b from where a ended. */
  lemma {:induction false} WalkConcat(fs: FileSystem, cur: Path, a: seq<string>, b: seq<string>)
    requires Walk(fs, cur, a).Ok?
    ensures Walk(fs, cur, a + b) == Walk(fs, Walk(fs, cur, a).value, b)
    decreases |a|
  {
    if a != [] {
      assert (a + b)[0] == a[0] && (a + b)[1..] == a[1..] + b;
      var s := a[0];
      if s == "" || s == "." {
        WalkConcat(fs, cur, a[1..], b);
      } else if s == ".." {
        WalkConcat(fs, if cur == [] then [] else cur[..|cur| - 1], a[1..], b);
      } else {
        WalkConcat(fs, cur + [s], a[1..], b);
      }
    } else {
      assert a + b == b;
    }
  }

  // ---------------------------------------------------------------------
  // Properties of resolve

  /** The fallback never declines a url, and resolving never fails with
      anything but NoResolution. */
  lemma AlwaysFamiliar(fs: FileSystem, url: string)
    ensures LooksFamiliar(url)
    ensures Resolve(fs, url).Ok? || Resolve(fs, url) == Err(NoResolution)
  {
  }

  /** Resolving the textual form of an existing path returns that path; in
      particular resolving the current directory returns it. */
  lemma ResolveExisting(fs: FileSystem, p: Path)
    requires Valid(fs) && p in fs.existing
    ensures Resolve(fs, Render(p)) == Ok(p)
  {
    if p == [] {
      RootSplit();
      assert Walk(fs, [], [""]) == Ok([]);
    } else {
      JoinStartsWithSlash(p);
      SplitJoin(p);
      assert [] + p == p;
      WalkExisting(fs, [], p);
      assert ([""] + p)[1..] == p;
    }
  }

  lemma ResolveCwd(fs: FileSystem)
    requires Valid(fs)
    ensures Resolve(fs, Render(fs.cwd)) == Ok(fs.cwd)
  {
    ResolveExisting(fs, fs.cwd);
  }

  /** Resolving is idempotent: resolving the result again gives the result. */
  lemma ResolveIdempotent(fs: FileSystem, url: string)
    requires Valid(fs) && Resolve(fs, url).Ok?
    ensures Resolve(fs, Render(Resolve(fs, url).value)) == Resolve(fs, url)
  {
    ResolveExisting(fs, Resolve(fs, url).value);
  }

  /** A relative url is resolved against the current directory: the same as
      the absolute url made by joining it onto the current directory. */
  lemma ResolveRelative(fs: FileSystem, url: string)
    requires Valid(fs) && url != [] && url[0] != '/'
    ensures Resolve(fs, url) == Resolve(fs, Render(fs.cwd) + "/" + url)
  {
    var cwd := fs.cwd;
    var joined := Render(cwd) + "/" + url;
    SplitConcat(Render(cwd), url);
    if cwd == [] {
      RootSplit();
      assert Walk(fs, [], [""]) == Ok([]);
      WalkConcat(fs, [], ["", ""], Split(url));
    } else {
      JoinStartsWithSlash(cwd);
      SplitJoin(cwd);
      assert [] + cwd == cwd;
      WalkExisting(fs, [], cwd);
      assert Walk(fs, [], [""] + cwd) == Walk(fs, [], cwd) by {
        assert ([""] + cwd)[1..] == cwd;
      }
      WalkConcat(fs, [], [""] + cwd, Split(url));
    }
    assert joined[0] == '/';
  }

  /** A bare name resolves to the entry of that name in the current
      directory, and to NoResolution when there is none. */
  lemma ResolveName(fs: FileSystem, name: string)
    requires IsName(name)
    ensures Resolve(fs, name) == if fs.cwd + [name] in fs.existing then Ok(fs.cwd + [name]) else Err(NoResolution)
  {
    SplitName(name);
    assert name[0] != '/';
    assert [name][1..] == [];
    assert Canonicalize(fs, name) == Walk(fs, fs.cwd, [name]);
    if fs.cwd + [name] in fs.existing {
      assert Walk(fs, fs.cwd + [name], []) == Ok(fs.cwd + [name]);
    }
  }

  /** "./name" resolves like name: the "." segment is dropped. */
  lemma ResolveDotName(fs: FileSystem, name: string)
    requires IsName(name)
    ensures Resolve(fs, "./" + name) == Resolve(fs, name)
  {
    SplitName(name);
    SplitConcat(".", name);
    assert "./" + name == "." + "/" + name;
    SplitName(".");
    assert name[0] != '/';
    assert (["."] + [name])[1..] == [name];
  }

  /** "/name" resolves to the entry of that name under the root, and to
      NoResolution when there is none. */
  lemma ResolveAbsoluteName(fs: FileSystem, name: string)
    requires IsName(name)
    ensures Resolve(fs, "/" + name) == if [name] in fs.existing then Ok([name]) else Err(NoResolution)
  {
    SplitName(name);
    SplitConcat("", name);
    assert "" + "/" + name == "/" + name;
    assert Split("/" + name) == ["", name];
    var url := "/" + name;
    assert url[0] == '/';
    assert Canonicalize(fs, url) == Walk(fs, [], ["", name]);
    assert ["", name][1..] == [name];
    assert Walk(fs, [], ["", name]) == Walk(fs, [], [name]);
    assert [name][1..] == [];
    assert [] + [name] == [name];
    if [name] in fs.existing {
      assert Walk(fs, [name], []) == Ok([name]);
    }
  }

  lemma LiteralNames()
    ensures IsName("never-resolve") && IsName("examples")
  {
  }

  // The situations the provider's own checks describe, for any filesystem in
  // which they hold.

  /** "/never-resolve" does not resolve when it does not exist. */
  lemma ResolveNeverAbsolute(fs: FileSystem)
    requires ["never-resolve"] !in fs.existing
    ensures Resolve(fs, "/never-resolve") == Err(NoResolution)
  {
    LiteralNames();
    var never := "never-resolve";
    ResolveAbsoluteName(fs, never);
    assert "/never-resolve" == "/" + never;
  }

  /** "never-resolve" does not resolve when the current directory has no such entry. */
  lemma ResolveNeverRelative(fs: FileSystem)
    requires fs.cwd + ["never-resolve"] !in fs.existing
    ensures Resolve(fs, "never-resolve") == Err(NoResolution)
  {
    LiteralNames();
    ResolveName(fs, "never-resolve");
  }

  /** "./examples" is the current directory's "examples". */
  lemma ResolveDotExamples(fs: FileSystem)
    requires fs.cwd + ["examples"] in fs.existing
    ensures Resolve(fs, "./examples") == Ok(fs.cwd + ["examples"])
  {
    LiteralNames();
    var examples := "examples";
    ResolveDotName(fs, examples);
    ResolveName(fs, examples);
    assert "./examples" == "./" + examples;
  }
}
