/** The Yay package provider: an AUR helper for Arch Linux. It carries no
    state; every capability is a constant or a concatenation. */
module YayProvider {
  import opened Wrappers
  import opened Atoms

  /** A package-install request: the packages, provider-specific extra
      arguments, and an optional explicit provider name. */
  datatype PackageVariant = PackageVariant(packageList: seq<string>, extraArgs: seq<string>, provider: Option<string>) {
    /** `PackageVariant::packages`. */
    function Packages(): seq<string> {
      packageList
    }
  }

  /** Why the `which` lookup found no executable; the detail is not modelled. */
  datatype WhichError = WhichError

  const InstallFlags: seq<string> := ["-S", "--noconfirm", "--nocleanmenu", "--nodiffmenu"]

  /** `name`. */
  function Name(): (r: string)
    ensures r == "Yay"
  {
    "Yay"
  }

  /** `available`: true exactly when the `which("yay")` lookup, passed in as
      its result, found the executable. */
  function Available(which: Result<string, WhichError>): (r: bool)
    ensures r <==> which.Ok?
  {
    match which
    case Ok(_) => true
    case Err(_) => false
  }

  /** `bootstrap`: install the build prerequisites with pacman, clone yay's
      AUR repository, and build and install it from the clone. */
  function Bootstrap(): (r: seq<Atom>)
    ensures |r| == 3 && forall i :: 0 <= i < 3 ==> r[i].Run?
    ensures r[0].exec.command == "pacman" && r[0].exec.arguments == ["-S", "--noconfirm", "base-devel", "git"]
    ensures r[1].exec.command == "git" && r[1].exec.arguments == ["clone", "https://aur.archlinux.org/yay.git", "/tmp/yay"]
    ensures r[2].exec.command == "makepkg" && r[2].exec.arguments == ["-si", "--noconfirm"]
    ensures forall i :: 0 <= i < 3 ==> (r[i].exec.privileged <==> i == 0)
    ensures r[0].exec.workingDir == None && r[1].exec.workingDir == None
    ensures r[2].exec.workingDir == Some("/tmp/yay")
  {
    [Run(Exec("pacman", ["-S", "--noconfirm", "base-devel", "git"], None, true)),
     Run(Command("git", ["clone", "https://aur.archlinux.org/yay.git", "/tmp/yay"])),
     Run(Exec("makepkg", ["-si", "--noconfirm"], Some("/tmp/yay"), false))]
  }

  /** The bootstrap steps fit together: the first installs the `git` the
      second runs, and the build runs in the directory the clone wrote. */
  lemma BootstrapCoherent()
    ensures var r := Bootstrap();
      && r[1].exec.command in r[0].exec.arguments
      && r[2].exec.workingDir == Some(r[1].exec.arguments[|r[1].exec.arguments| - 1])
  {
  }

  /** `has_repository`: yay has no repository concept. */
  function HasRepository(v: PackageVariant): (r: bool)
    ensures !r
  {
    false
  }

  /** `add_repository`: nothing to do. */
  function AddRepository(v: PackageVariant): (r: seq<Atom>)
    ensures r == []
  {
    []
  }

  /** `query`: yay installs packages under their declared names. */
  function Query(v: PackageVariant): (r: seq<string>)
    ensures r == v.Packages()
  {
    v.Packages()
  }

  /** `install`: a single unprivileged `yay` command whose arguments are the
      fixed non-interactive flags, then the extra arguments, then the queried
      packages, each part in its declared order. */
  function Install(v: PackageVariant): (r: seq<Atom>)
    ensures |r| == 1 && r[0].Run?
    ensures r[0].exec.command == "yay" && !r[0].exec.privileged && r[0].exec.workingDir == None
    ensures var args := r[0].exec.arguments;
      && |args| == |InstallFlags| + |v.extraArgs| + |Query(v)|
      && args[..|InstallFlags|] == InstallFlags
      && args[|InstallFlags|..|InstallFlags| + |v.extraArgs|] == v.extraArgs
      && args[|InstallFlags| + |v.extraArgs|..] == Query(v)
  {
    var args := InstallFlags + v.extraArgs + v.Packages();
    assert args[..|InstallFlags|] == InstallFlags;
    assert args[|InstallFlags|..|InstallFlags| + |v.extraArgs|] == v.extraArgs;
    [Run(Command("yay", args))]
  }

  /** Two requests produce the same install command exactly when they have
      the same extra arguments and the same packages, provided the split
      point (the number of extra arguments) agrees. */
  lemma InstallDeterminedByRequest(v: PackageVariant, w: PackageVariant)
    requires |v.extraArgs| == |w.extraArgs|
    ensures Install(v) == Install(w) <==> v.extraArgs == w.extraArgs && v.Packages() == w.Packages()
  {
  }

  /** extra_args ["--foo"] with packages ["vim", "git"] gives the fixed flags
      followed by "--foo", "vim", "git". */
  lemma InstallExample()
    ensures Install(PackageVariant(["vim", "git"], ["--foo"], None))[0].exec.arguments
      == ["-S", "--noconfirm", "--nocleanmenu", "--nodiffmenu", "--foo", "vim", "git"]
  {
  }
}
