# comtrya provisioning core: file copy, the Yay provider, the local manifest provider

This project models three stateless strategy objects of comtrya, a declarative
machine-provisioning tool, and proves what each promises:

- the `file.copy` action (`src/actions/file/copy.rs`): the chmod decoder
  `from_octal`, which reads the literal a user wrote (644) as octal permission
  bits (420), the defaults of the omitted fields, and the planner that turns
  the action into four atoms: `mkdir -p` of the parent of `to`, create `to`,
  set its mode, set its contents;
- the Yay package provider (`src/actions/package/providers/yay.rs`): its
  name, availability probe, bootstrap plan, repository capabilities, query
  and install command;
- the local manifest provider (`src/manifests/providers/local.rs`), the
  catch-all fallback of the manifest resolution chain: it recognises every
  url and resolves it by canonicalising it as a filesystem path.

Everything is pure, as in the source. The collaborators are inputs:
template rendering and file loading are two functions `string -> Result`
given to the planner; the `which("yay")` lookup is its result; the
filesystem is a value holding the current directory and the set of existing
canonical paths.

Files:

- `wrappers.dfy`: `Option` and `Result`.
- `numerals.dfy`: Rust's `u32`, `u32::to_string`, and `u32::from_str_radix`
  for radices 2 to 10 (empty input, a lone sign, one leading `+`, the digit
  loop that reports an invalid digit before an overflow), with the lemma that
  decimal digits whose decimal value fits in `u32` never overflow in a
  smaller radix.
- `atoms.dfy`: the `Exec` record and the `Atom` variants `Exec`, `Create`,
  `Chmod` and `SetContents` (the `Exec` variant is the constructor `Run`).
- `paths.dfy`: splitting text at its `/` separators.
- `rust_path.dfy`: Rust's `Path::components` and `Path::parent` on Unix.
- `file_copy.dfy`: `FileCopy`, the decoder, deserialisation with defaults,
  and `Plan`.
- `yay.dfy`: `PackageVariant` and the Yay provider.
- `local_manifest.dfy`: the abstract filesystem, canonicalisation and
  `resolve`.

Behaviour of the code that the model keeps as written:

- When the contents cannot be obtained, `plan` logs an error and returns an
  empty plan. The comment at `src/actions/file/copy.rs:55` says the error
  should rather be passed up to the caller. The model keeps the empty plan
  (`FileCopyAction.Plan`).
- `plan` unwraps the parent of `to` (`src/actions/file/copy.rs:72`). The
  model makes the unwrap's panic an outcome of `Plan`
  (`Err(MissingParent)`). It happens only after the contents were obtained,
  and exactly when `Path::parent` gives `None`. `Path::components` drops
  empty pieces and `.` pieces after the first. So `to` has no parent when
  its components are none or the root alone: `""`, `/`, `//` and `/.` all
  panic.
- Because those pieces are dropped, `to = "/etc/."` plans `mkdir -p "/"`,
  and `to = "/etc/"` does too.
- A bare file name such as `b` has the empty parent. Its plan therefore starts
  with `mkdir -p ""`, as the code does.

## Model

| member | source | states |
|---|---|---|
| `Numerals.ToDecimalString` | src/actions/file/copy.rs:27 | `chmod.to_string()` is a non-empty string of decimal digits; its first digit is 0 only for the text "0", so there is no leading zero |
| `Numerals.ToDecimalStringValue` | src/actions/file/copy.rs:27 | the decimal text of n, read back in base ten, is n |
| `Numerals.DigitsValueMonotone` | src/actions/file/copy.rs:26-27 | the same digits read in a smaller radix give a number no larger |
| `Numerals.Accumulate` | src/actions/file/copy.rs:27 | the digit loop of `from_str_radix` succeeds exactly when every character is a digit of the radix and their value in that radix fits in u32, and then yields that value; it never reports Empty, and with all digits valid its only error is PosOverflow |
| `Numerals.FromStrRadix` | src/actions/file/copy.rs:27 | `from_str_radix` reports Empty exactly for the empty string, and succeeds exactly when what follows one optional `+` is a non-empty run of digits of the radix whose value fits in u32, yielding that value |
| `Numerals.AccumulateDecimal` | src/actions/file/copy.rs:27 | `from_str_radix` on decimal digits whose value fits in u32 never overflows: it succeeds exactly when every digit is below the radix, with the digits' value in that radix, and otherwise fails with InvalidDigit |
| `FileCopyAction.FromOctal` | src/actions/file/copy.rs:22-28 | the decoder reads the decimal digits of the literal as base-8 digits; it succeeds iff all digits are below 8 and fails only with InvalidDigit |
| `FileCopyAction.FromOctalFailsIff` | src/actions/file/copy.rs:27 | decoding fails if and only if the literal contains a digit 8 or 9 |
| `FileCopyAction.FromOctalNoOverflow` | src/actions/file/copy.rs:26-27 | decoding never reports overflow or empty input, and a decoded mode is at most the literal, so it fits in u32 |
| `FileCopyAction.FromOctalRoundTrip` | src/actions/file/copy.rs:27 | writing permission bits v as an octal literal and decoding gives v back |
| `FileCopyAction.FromOctalInverse` | src/actions/file/copy.rs:27 | every decoded mode's octal literal is the literal decoded, so decoding is injective with inverse `OctalLiteral` |
| `FileCopyAction.FromOctalExamples` | src/actions/file/copy.rs:26-27 | 644 decodes to 420, 755 to 493, 0 to 0; 648 and 9 are refused with InvalidDigit |
| `FileCopyAction.DefaultChmod` | src/actions/file/copy.rs:30-32 | the default mode is the one whose octal literal is 644 |
| `FileCopyAction.DefaultTemplate` | src/actions/file/copy.rs:34-36 | by default the source is loaded, not rendered as a template |
| `FileCopyAction.Deserialize` | src/actions/file/copy.rs:10-20 | a `file.copy` entry fails to deserialise exactly when a given chmod fails to decode; `from`/`to` are kept; template is true only when given as true; an omitted chmod is 420, a given one is the mode whose octal literal was written |
| `FileCopyAction.DeserializeDefaults` | src/actions/file/copy.rs:15-36 | `from: a, to: b` gives chmod 420 and template false; omitting chmod equals writing 644 |
| `RustPath.ParentSpec` | src/actions/file/copy.rs:72 | `Path::parent` gives None exactly when the components are none or the root alone; otherwise a shorter prefix of `to`, cut at a separator or at the start, whose components are those of `to` without the last, not ending in an empty or `.` piece |
| `RustPath.ParentUnique` | src/actions/file/copy.rs:72 | those properties determine the parent: any such cut of `to` is `Parent(to)` |
| `RustPath.ParentOfRelativeName` | src/actions/file/copy.rs:72 | a relative path of one component piece, such as `b`, has the empty parent |
| `RustPath.ParentUnderTopLevel` | src/actions/file/copy.rs:72 | under a top-level directory `/a`, a last component leaves `/a` (`/etc/hosts` gives `/etc`) and an empty or `.` last piece leaves `/` (`/etc/` and `/etc/.` give `/`) |
| `RustPath.ParentOfRoot` | src/actions/file/copy.rs:72 | `/` and "" have no parent |
| `RustPath.ParentOfRootDot` | src/actions/file/copy.rs:72 | `/.` has no parent, so planning it panics |
| `RustPath.ParentOfDotName` | src/actions/file/copy.rs:72 | the parent of `./b` is `.` |
| `RustPath.ParentOfDot` | src/actions/file/copy.rs:72 | the parent of `.` is "" |
| `FileCopyAction.Contents` | src/actions/file/copy.rs:47-59 | the contents are the template rendering of `from` when `template` is set, and the file `from` loaded otherwise |
| `FileCopyAction.Plan` | src/actions/file/copy.rs:43-83 | a contents failure gives the empty plan; a panic happens iff the contents were obtained and `to` has no parent (its components are none or the root alone); otherwise exactly four atoms in the order Exec, Create, Chmod, SetContents: mkdir -p of the parent with default privileged/working_dir, then three atoms on `to` carrying the decoded mode unchanged and exactly the obtained contents |
| `FileCopyAction.PlanUsesSelectedSource` | src/actions/file/copy.rs:47-52 | with `template` set the plan does not depend on the loader, without it not on the renderer |
| `FileCopyAction.PlanOrder` | src/actions/file/copy.rs:64-82 | a plan either is empty or has four atoms; the directory made by the first is a proper prefix of the path the others all target |
| `FileCopyAction.DeclaredModeIsPlanned` | src/actions/file/copy.rs:15-16 | the mode a declared action plans is the one whose octal literal the user wrote, or 420 when omitted |
| `YayProvider.Name` | src/actions/package/providers/yay.rs:12-14 | the provider's name is `Yay` |
| `YayProvider.Available` | src/actions/package/providers/yay.rs:16-24 | yay is available exactly when the `which` lookup succeeded |
| `YayProvider.Bootstrap` | src/actions/package/providers/yay.rs:26-55 | three Exec atoms in order: pacman installs base-devel and git, git clones yay's AUR repository into /tmp/yay, makepkg -si --noconfirm runs in /tmp/yay; only the first is privileged |
| `YayProvider.BootstrapCoherent` | src/actions/package/providers/yay.rs:26-55 | the first step installs the `git` the second runs, and the build runs in the directory the clone writes |
| `YayProvider.HasRepository` | src/actions/package/providers/yay.rs:57-59 | false for every variant |
| `YayProvider.AddRepository` | src/actions/package/providers/yay.rs:61-63 | the empty plan for every variant |
| `YayProvider.Query` | src/actions/package/providers/yay.rs:65-67 | the variant's packages, unchanged and in order |
| `YayProvider.Install` | src/actions/package/providers/yay.rs:69-85 | one unprivileged Exec of `yay` with no working dir; its arguments are the four fixed flags, then extra_args, then `Query(v)`, of total length 4 + extra_args + packages |
| `YayProvider.InstallDeterminedByRequest` | src/actions/package/providers/yay.rs:72-82 | with the same number of extra arguments, two requests give the same install atom iff their extra arguments and packages are equal |
| `YayProvider.InstallExample` | src/actions/package/providers/yay.rs:69-85 | extra_args ["--foo"] and packages ["vim", "git"] give the fixed flags followed by "--foo", "vim", "git" |
| `LocalManifest.LooksFamiliar` | src/manifests/providers/local.rs:12-14 | true for every url |
| `LocalManifest.Walk` | src/manifests/providers/local.rs:17 | each piece adds at most one segment, and on a valid filesystem a walk from an existing directory only reaches existing paths |
| `LocalManifest.Canonicalize` | src/manifests/providers/local.rs:17 | the empty path is NotFound, and on a valid filesystem a canonicalised path exists and is canonical |
| `LocalManifest.Resolve` | src/manifests/providers/local.rs:16-20 | resolve succeeds exactly when canonicalisation does, with the same path, every failure is NoResolution, and on a valid filesystem a resolved path exists and is canonical |
| `LocalManifest.AlwaysFamiliar` | src/manifests/providers/local.rs:12-19 | the fallback claims every url, and resolving yields a path or NoResolution, nothing else |
| `LocalManifest.ResolveExisting` | src/manifests/providers/local.rs:29-35 | resolving the text of any existing absolute path returns that path |
| `LocalManifest.ResolveCwd` | src/manifests/providers/local.rs:32-35 | resolving the current directory's absolute text returns the current directory |
| `LocalManifest.ResolveIdempotent` | src/manifests/providers/local.rs:16-20 | resolving the text of a resolved path gives it back |
| `LocalManifest.ResolveRelative` | src/manifests/providers/local.rs:43-54 | a relative url resolves exactly as the absolute url made by joining it onto the current directory |
| `LocalManifest.ResolveName` | src/manifests/providers/local.rs:56-59 | a bare name resolves to that entry of the current directory, or to NoResolution when it does not exist |
| `LocalManifest.ResolveDotName` | src/manifests/providers/local.rs:47-54 | `./name` resolves as `name`: the `.` segment is dropped |
| `LocalManifest.ResolveAbsoluteName` | src/manifests/providers/local.rs:37-40 | `/name` resolves to that entry of the root, or to NoResolution when it does not exist |
| `LocalManifest.ResolveNeverAbsolute` | src/manifests/providers/local.rs:37-40 | `/never-resolve` gives NoResolution when it does not exist |
| `LocalManifest.ResolveNeverRelative` | src/manifests/providers/local.rs:56-59 | `never-resolve` gives NoResolution when the current directory has no such entry |
| `LocalManifest.ResolveDotExamples` | src/manifests/providers/local.rs:47-54 | `./examples` resolves to the current directory's `examples` when it exists |

`resolve` is a function of the filesystem value and the url, so it is
deterministic by construction. The same holds for `plan` and the Yay
capabilities: `Bootstrap` takes no argument, so its result is a constant.

## Left out

- Template rendering and file loading (`self.init`, `tera.render`, `self.load`): parameters of `Plan` returning contents or an error whose detail is not modelled.
- Logging (`error!`, `warn!`): it has no effect on results.
- The `which("yay")` PATH lookup: `Available` takes its result as input.
- Executing atoms: only their descriptions are modelled. `Exec` has the fields the modelled atoms use: command, arguments, working directory and privileged.
- Serde and YAML machinery and the `Actions` tagged-union dispatch. `Deserialize` takes the chmod already read as a `u32`, so a literal that does not fit in `u32`, or is not an integer, is not modelled.
- `from_str_radix` for radices above 10 (letter digits): the decoder only uses radix 8.
- `Path::components` on other platforms (Windows prefixes and backslash separators): the model is the Unix behaviour.
- The `to_str().unwrap()` on the parent: a Dafny string is always valid text, so that unwrap cannot fail here.
- OS-level canonicalisation details: symbolic links, permissions, the difference between files and directories (a trailing `/` after a file), non-UTF-8 paths. A name containing NUL, which the operating system refuses, is never an existing entry. The filesystem is a set of canonical paths with no symbolic links.
- `PackageVariant::packages()` is not part of this model: its source is not among the modelled files, so it is taken to return the declared package list.
- The package-provider registry and selection policy, and the rule that `install` runs only after `available` or `bootstrap`: their code is not among the modelled files.
- The manifest resolution chain and the other members of the provider error enum: their code is not among the modelled files. Only the fallback's "always familiar" contract is modelled.
