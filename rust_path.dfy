/** Rust's `std::path::Path` on Unix, as far as `Path::parent` needs it:
    the components of a path, and the parent computed by iterating them from
    the back. */
module RustPath {
  import opened Wrappers
  import opened PathText

  datatype Component = RootDir | CurDir | ParentDir | Normal(name: string)

  predicate HasRoot(path: string) {
    |path| > 0 && path[0] == '/'
  }

  /** A relative path that starts with the component ".". */
  predicate IncludesCurDir(path: string) {
    !HasRoot(path) && |path| > 0 && path[0] == '.' && (|path| == 1 || path[1] == '/')
  }

  /** The length of the text before the body: the root, or a leading ".". */
  function BodyStart(path: string): (n: nat)
    ensures n <= |path|
  {
    if HasRoot(path) || IncludesCurDir(path) then 1 else 0
  }

  /** The component a piece of the body stands for: empty pieces and "."
      stand for none. */
  function PieceComponent(piece: string): seq<Component> {
    if piece == "" || piece == "." then []
    else if piece == ".." then [ParentDir]
    else [Normal(piece)]
  }

  function Filter(pieces: seq<string>): seq<Component>
    decreases |pieces|
  {
    if pieces == [] then [] else Filter(pieces[..|pieces| - 1]) + PieceComponent(pieces[|pieces| - 1])
  }

  /** `Path::components`: the root or a leading "." first, then the pieces
      of the body between separators, with empty and "." pieces dropped. */
  function Components(path: string): seq<Component> {
    (if HasRoot(path) then [RootDir] else if IncludesCurDir(path) then [CurDir] else [])
      + Filter(Split(path[BodyStart(path)..]))
  }

  /** Index of the last separator at or after `start`. */
  function LastSeparator(path: string, start: nat): (r: Option<nat>)
    requires start <= |path|
    ensures r.Some? ==> start <= r.value < |path| && path[r.value] == '/' && '/' !in path[r.value + 1..]
    ensures r.None? ==> '/' !in path[start..]
    decreases |path|
  {
    if |path| == start then None
    else if path[|path| - 1] == '/' then Some(|path| - 1)
    else
      var r := LastSeparator(path[..|path| - 1], start);
      assert r.Some? ==> path[r.value + 1..] == path[..|path| - 1][r.value + 1..] + [path[|path| - 1]];
      assert r.None? ==> path[start..] == path[..|path| - 1][start..] + [path[|path| - 1]];
      r
  }

  /** `parse_next_component_back`: the last piece of the body, and the text
      before it without its separator. */
  function LastPiece(path: string, start: nat): (r: (string, string))
    requires start < |path|
    ensures r.1 <= path && start <= |r.1| < |path|
    ensures |r.1| == start || path[|r.1|] == '/'
    ensures '/' !in r.0 && |r.0| <= |path| && r.0 == path[|path| - |r.0|..]
    ensures (|r.1| == start && r.0 == path[start..]) || (path[|r.1|] == '/' && r.0 == path[|r.1| + 1..])
  {
    match LastSeparator(path, start)
    case None => (path[start..], path[..start])
    case Some(i) => (path[i + 1..], path[..i])
  }

  /** `Components::next_back` while in the body: the first component met
      from the back, and the text before it; None once only the text before
      the body is left. */
  function NextBackBody(path: string, start: nat): (r: (Option<Component>, string))
    requires start <= |path|
    ensures r.1 <= path && start <= |r.1|
    decreases |path|
  {
    if |path| == start then (None, path)
    else
      var piece, rest := LastPiece(path, start).0, LastPiece(path, start).1;
      if PieceComponent(piece) == [] then NextBackBody(rest, start)
      else (Some(PieceComponent(piece)[0]), rest)
  }

  /** `trim_right` as `Components::as_path` applies it: trailing empty and
      "." pieces of the body removed. */
  function TrimBack(path: string, start: nat): (t: string)
    requires start <= |path|
    ensures t <= path && start <= |t|
    decreases |path|
  {
    if |path| == start then path
    else
      var piece, rest := LastPiece(path, start).0, LastPiece(path, start).1;
      if PieceComponent(piece) == [] then TrimBack(rest, start) else path
  }

  /** A path has no parent when its components are none or the root alone. */
  predicate NoParent(path: string) {
    Components(path) == [] || Components(path) == [RootDir]
  }

  /** q is a prefix of path that ends at or before the body start, or just
      before a separator. */
  predicate CutAtSeparator(path: string, q: string) {
    q <= path && (|q| <= BodyStart(path) || (|q| < |path| && path[|q|] == '/'))
  }

  /** The text ends in an empty or "." piece of its body. */
  predicate EndsInSkippedPiece(q: string) {
    |q| > BodyStart(q) && (q[|q| - 1] == '/' || (q[|q| - 1] == '.' && q[|q| - 2] == '/'))
  }

  /** `Path::parent`: the last component is taken from the back; a component
      of the body leaves the text before it, with trailing empty and "."
      pieces trimmed; a leading "." leaves the empty path; the root, or no
      component at all, leaves no parent. */
  function Parent(path: string): Option<string> {
    var start := BodyStart(path);
    var c, rest := NextBackBody(path, start).0, NextBackBody(path, start).1;
    if c.Some? then Some(TrimBack(rest, start))
    else if IncludesCurDir(path) then Some("")
    else None
  }

  /** What Parent computes: there is none exactly when the path's components
      are none or the root alone; otherwise the parent is a shorter prefix of
      the path, cut at a separator or at the body start, whose components are
      the path's components without the last, and it does not end in an empty
      or "." piece (ParentUnique shows these determine it). */
  lemma ParentSpec(path: string)
    ensures Parent(path).None? <==> NoParent(path)
    ensures Parent(path).Some? ==> var q := Parent(path).value;
      && CutAtSeparator(path, q) && |q| < |path|
      && Components(q) == Components(path)[..|Components(path)| - 1]
      && !EndsInSkippedPiece(q)
  {
    if NextBackBody(path, BodyStart(path)).0.Some? {
      ParentInBody(path);
    } else {
      ParentAtStart(path);
    }
  }

  // ---------------------------------------------------------------------
  // Lemmas

  /** Neither the root nor a leading "." comes out of the body. */
  lemma {:induction false} FilterHasNoStart(pieces: seq<string>)
    ensures forall i :: 0 <= i < |Filter(pieces)| ==> Filter(pieces)[i] != RootDir && Filter(pieces)[i] != CurDir
    decreases |pieces|
  {
    if pieces != [] {
      FilterHasNoStart(pieces[..|pieces| - 1]);
    }
  }

  lemma FilterAppend(pieces: seq<string>, piece: string)
    ensures Filter(pieces + [piece]) == Filter(pieces) + PieceComponent(piece)
  {
    assert (pieces + [piece])[..|pieces|] == pieces;
  }

  /** Taking the last piece off the body takes its component off the body's
      components. */
  lemma LastPieceComponents(path: string, start: nat)
    requires start < |path|
    ensures Filter(Split(path[start..])) == Filter(Split(LastPiece(path, start).1[start..])) + PieceComponent(LastPiece(path, start).0)
  {
    var piece, rest := LastPiece(path, start).0, LastPiece(path, start).1;
    var body := path[start..];
    if |rest| == start && piece == body {
      OnlyPieceComponents(body);
      assert rest[start..] == "";
    } else {
      CutAt(path, start, |rest|);
      assert body == rest[start..] + "/" + piece;
      SeparatedPieceComponents(rest[start..], piece);
    }
  }

  /** A text splits around one of its separators. */
  lemma CutAt(s: string, a: nat, k: nat)
    requires a <= k < |s| && s[k] == '/'
    ensures s[a..] == s[a..k] + "/" + s[k + 1..]
  {
    assert "/" == [s[k]];
  }

  /** A separator followed by a last piece adds that piece's component. */
  lemma SeparatedPieceComponents(before: string, piece: string)
    requires '/' !in piece
    ensures Filter(Split(before + "/" + piece)) == Filter(Split(before)) + PieceComponent(piece)
  {
    SplitConcat(before, piece);
    SplitName(piece);
    FilterAppend(Split(before), piece);
  }

  /** A body without a separator is one piece. */
  lemma OnlyPieceComponents(piece: string)
    requires '/' !in piece
    ensures Filter(Split(piece)) == Filter(Split("")) + PieceComponent(piece)
  {
    SplitName(piece);
    assert Split("") == [""];
    FilterAppend([], "");
    FilterAppend([], piece);
  }

  /** What `next_back` in the body finds: the body's last component, with the
      text before it; or, when the body has no component, the text before
      the body. */
  lemma {:induction false} NextBackBodySpec(path: string, start: nat)
    requires start <= |path|
    ensures var c, rest := NextBackBody(path, start).0, NextBackBody(path, start).1;
      && rest <= path && start <= |rest|
      && (|rest| == start || (|rest| < |path| && path[|rest|] == '/'))
      && (c.None? ==> Filter(Split(path[start..])) == [] && |rest| == start)
      && (c.Some? ==> |rest| < |path|)
      && (c.Some? ==> Filter(Split(path[start..])) == Filter(Split(rest[start..])) + [c.value])
    decreases |path|
  {
    if |path| == start {
      assert path[start..] == "";
      assert Split("") == [""];
      FilterAppend([], "");
    } else {
      var piece, rest := LastPiece(path, start).0, LastPiece(path, start).1;
      LastPieceComponents(path, start);
      if PieceComponent(piece) == [] {
        NextBackBodySpec(rest, start);
      }
    }
  }

  /** Trimming keeps a prefix with the same body components, and stops at
      the body start or at a piece that is a component. */
  lemma {:induction false} TrimBackSpec(path: string, start: nat)
    requires start <= |path|
    ensures var t := TrimBack(path, start);
      && t <= path && start <= |t|
      && (|t| == start || |t| == |path| || path[|t|] == '/')
      && Filter(Split(t[start..])) == Filter(Split(path[start..]))
      && (|t| > start ==> PieceComponent(LastPiece(t, start).0) != [])
    decreases |path|
  {
    if |path| > start {
      var piece, rest := LastPiece(path, start).0, LastPiece(path, start).1;
      if PieceComponent(piece) == [] {
        LastPieceComponents(path, start);
        TrimBackSpec(rest, start);
      }
    }
  }

  /** When the body has a component, the trimmed text before it is a proper
      prefix holding the other components. */
  lemma ParentInBody(path: string)
    requires NextBackBody(path, BodyStart(path)).0.Some?
    ensures var start := BodyStart(path);
      var q := TrimBack(NextBackBody(path, start).1, start);
      && !NoParent(path)
      && CutAtSeparator(path, q) && |q| < |path|
      && Components(q) == Components(path)[..|Components(path)| - 1]
      && !EndsInSkippedPiece(q)
  {
    var start := BodyStart(path);
    var rest := NextBackBody(path, start).1;
    var q := TrimBack(rest, start);
    NextBackBodySpec(path, start);
    BodyComponentIsLast(path);
    TrimmedParent(path, rest, q);
  }

  /** The components of the trimmed text before the last component. */
  lemma TrimmedParent(path: string, rest: string, q: string)
    requires NextBackBody(path, BodyStart(path)).0.Some?
    requires rest == NextBackBody(path, BodyStart(path)).1
    requires q == TrimBack(rest, BodyStart(path))
    ensures |q| < |path| && Components(path) != []
    ensures CutAtSeparator(path, q)
    ensures Components(q) == Components(path)[..|Components(path)| - 1]
    ensures !EndsInSkippedPiece(q)
  {
    var start := BodyStart(path);
    var c := NextBackBody(path, start).0;
    NextBackBodySpec(path, start);
    TrimBackSpec(rest, start);
    PrefixKeepsStart(q, path);
    var others := Filter(Split(rest[start..]));
    assert Filter(Split(q[start..])) == others;
    var body := Filter(Split(path[start..]));
    assert body == others + [c.value];
    assert body[..|body| - 1] == others;
    HeadAgrees(q, path);
    TrimmedEnd(rest, start);
    if |q| > start && |q| < |rest| {
      assert path[|q|] == rest[|q|];
    }
  }

  /** Trimmed text does not end in an empty or "." piece. */
  lemma TrimmedEnd(path: string, start: nat)
    requires start <= |path| && BodyStart(TrimBack(path, start)) == start
    ensures !EndsInSkippedPiece(TrimBack(path, start))
  {
    var t := TrimBack(path, start);
    TrimBackSpec(path, start);
    if |t| > start {
      ComponentPieceEnd(t, LastPiece(t, start).0);
    }
  }

  /** A text ending in a piece that stands for a component does not end in a
      separator, nor in a separator followed by ".". */
  lemma ComponentPieceEnd(t: string, piece: string)
    requires '/' !in piece && piece != "" && piece != "." && |piece| <= |t|
    requires piece == t[|t| - |piece|..]
    ensures t[|t| - 1] != '/'
    ensures t[|t| - 1] == '.' && |t| >= 2 ==> t[|t| - 2] != '/'
  {
    assert t[|t| - 1] == piece[|piece| - 1];
    if |piece| >= 2 {
      assert t[|t| - 2] == piece[|piece| - 2];
    }
  }

  /** The start components of q and path agree. */
  lemma HeadAgrees(q: string, path: string)
    requires q <= path && BodyStart(q) == BodyStart(path) && HasRoot(q) == HasRoot(path)
    requires |q| > 0 ==> IncludesCurDir(q) == IncludesCurDir(path)
    requires Filter(Split(path[BodyStart(path)..])) != []
    requires Filter(Split(path[BodyStart(path)..]))[..|Filter(Split(path[BodyStart(path)..]))| - 1] == Filter(Split(q[BodyStart(q)..]))
    ensures Components(q) == Components(path)[..|Components(path)| - 1]
  {
  }

  /** When the body has no component, only a leading "." is left to take,
      and it leaves the empty path. */
  lemma ParentAtStart(path: string)
    requires NextBackBody(path, BodyStart(path)).0.None?
    ensures NoParent(path) <==> !IncludesCurDir(path)
    ensures IncludesCurDir(path) ==> |path| > 0 && Components("") == Components(path)[..|Components(path)| - 1]
    ensures !EndsInSkippedPiece("")
  {
    NextBackBodySpec(path, BodyStart(path));
    NoComponents();
    if HasRoot(path) {
      assert Components(path) == [RootDir] + [];
    } else if IncludesCurDir(path) {
      assert Components(path) == [CurDir] + [];
      assert Components(path)[0] != RootDir;
    } else {
      assert Components(path) == [] + [];
    }
  }

  /** A component found in the body is the path's last component, and so
      the path has more than the root. */
  lemma BodyComponentIsLast(path: string)
    requires NextBackBody(path, BodyStart(path)).0.Some?
    ensures var cs := Components(path);
      cs != [] && cs[|cs| - 1] == NextBackBody(path, BodyStart(path)).0.value && cs != [RootDir]
  {
    var start := BodyStart(path);
    NextBackBodySpec(path, start);
    FilterHasNoStart(Split(path[start..]));
    var body := Filter(Split(path[start..]));
    assert body[|body| - 1] == NextBackBody(path, start).0.value;
  }

  /** A prefix of a path that ends at the body start or before a separator
      starts the way the path does. */
  lemma PrefixKeepsStart(q: string, path: string)
    requires q <= path && BodyStart(path) <= |q|
    requires |q| == BodyStart(path) || |q| == |path| || path[|q|] == '/'
    ensures BodyStart(q) == BodyStart(path)
    ensures HasRoot(q) == HasRoot(path)
    ensures |q| > 0 ==> IncludesCurDir(q) == IncludesCurDir(path)
  {
    if |q| > 0 {
      assert q[0] == path[0];
    }
    if |q| > 1 {
      assert q[1] == path[1];
    }
  }

  lemma {:induction false} FilterConcat(a: seq<string>, b: seq<string>)
    ensures Filter(a + b) == Filter(a) + Filter(b)
    decreases |b|
  {
    if b != [] {
      var b' := b[..|b| - 1];
      FilterConcat(a, b');
      assert (a + b)[..|a + b| - 1] == a + b';
    } else {
      assert a + b == a;
    }
  }

  /** A cut of a text has no more body components than the text. */
  lemma CutBodyLength(q: string, p: string, start: nat)
    requires q <= p && start <= |q|
    requires |q| == start || |q| == |p| || p[|q|] == '/'
    ensures |Filter(Split(q[start..]))| <= |Filter(Split(p[start..]))|
  {
    if |q| == start {
      assert q[start..] == "";
      assert Split("") == [""];
      FilterAppend([], "");
    } else if |q| < |p| {
      var mid := p[|q| + 1..];
      assert p[start..] == p[start..|q|] + "/" + mid;
      assert p[start..|q|] == q[start..];
      SplitConcat(q[start..], mid);
      assert Split(p[start..]) == Split(q[start..]) + Split(mid);
      FilterConcat(Split(q[start..]), Split(mid));
      assert Filter(Split(p[start..])) == Filter(Split(q[start..])) + Filter(Split(mid));
    } else {
      assert q == p;
    }
  }

  /** A body whose last piece stands for no component ends in an empty or
      "." piece. */
  lemma SkippedLastPiece(q: string, start: nat)
    requires start == BodyStart(q) && start < |q|
    requires PieceComponent(LastPiece(q, start).0) == []
    ensures EndsInSkippedPiece(q)
  {
    var piece, rest := LastPiece(q, start).0, LastPiece(q, start).1;
    if |rest| == start && piece == q[start..] {
      if start == 1 {
        assert q[1] == '.';
      }
    }
  }

  /** Of two cuts of a path with the same components, the longer one ends in
      an empty or "." piece: whatever lies between them has no component. */
  lemma LongerCutEndsSkipped(path: string, q1: string, q2: string)
    requires CutAtSeparator(path, q1) && CutAtSeparator(path, q2) && |q1| < |q2|
    requires Components(q1) == Components(q2)
    ensures EndsInSkippedPiece(q2)
  {
    var start := BodyStart(path);
    NoComponents();
    // q1 cannot end before the body start: it would be empty, with no
    // component, while q2 begins with the root or ".".
    if |q1| >= start {
      PrefixKeepsStart(q1, path);
      PrefixKeepsStart(q2, path);
      var head := if HasRoot(path) then [RootDir] else if IncludesCurDir(path) then [CurDir] else [];
      var b1, b2 := Filter(Split(q1[start..])), Filter(Split(q2[start..]));
      assert Components(q1) == head + b1 && Components(q2) == head + b2;
      assert b1 == (head + b1)[|head|..] && b2 == (head + b2)[|head|..];
      LongerBodyEndsSkipped(path, q1, q2, start);
    }
  }

  /** The empty path has no component. */
  lemma NoComponents()
    ensures Components("") == []
  {
    assert Split("") == [""];
    FilterAppend([], "");
  }

  /** The same, once both cuts begin the way the path does. */
  lemma LongerBodyEndsSkipped(path: string, q1: string, q2: string, start: nat)
    requires CutAtSeparator(path, q1) && CutAtSeparator(path, q2)
    requires start == BodyStart(q2) && start <= |q1| < |q2|
    requires |q1| == start || path[|q1|] == '/'
    requires Filter(Split(q1[start..])) == Filter(Split(q2[start..]))
    ensures EndsInSkippedPiece(q2)
  {
    var piece, rest := LastPiece(q2, start).0, LastPiece(q2, start).1;
    LastPieceComponents(q2, start);
    assert |q1| <= |rest| by {
      if |q1| > start { assert q2[|q1|] == '/'; }
    }
    assert |q1| == start || |q1| == |rest| || rest[|q1|] == '/' by {
      if |q1| < |rest| { assert rest[|q1|] == path[|q1|]; }
    }
    CutBodyLength(q1, rest, start);
    SkippedLastPiece(q2, start);
  }

  /** The parent is the only cut of the path that has the path's components
      without the last and does not end in an empty or "." piece. */
  lemma ParentUnique(path: string, q: string)
    requires !NoParent(path)
    requires CutAtSeparator(path, q)
    requires Components(q) == Components(path)[..|Components(path)| - 1]
    requires !EndsInSkippedPiece(q)
    ensures Parent(path) == Some(q)
  {
    ParentSpec(path);
    var p := Parent(path).value;
    if |q| < |p| {
      LongerCutEndsSkipped(path, q, p);
    } else if |p| < |q| {
      LongerCutEndsSkipped(path, p, q);
    } else {
      assert q == p;
    }
  }

  /** The last separator is the one with no separator after it. */
  lemma LastSeparatorAt(path: string, start: nat, i: nat)
    requires start <= i < |path| && path[i] == '/' && '/' !in path[i + 1..]
    ensures LastSeparator(path, start) == Some(i)
  {
  }

  lemma LastSeparatorNone(path: string, start: nat)
    requires start <= |path| && '/' !in path[start..]
    ensures LastSeparator(path, start) == None
  {
  }

  /** A relative path of one piece that is a component has the empty parent. */
  lemma ParentOfRelativeName(x: string)
    requires x != "" && x != "." && '/' !in x
    ensures Parent(x) == Some("")
  {
    assert BodyStart(x) == 0;
    LastSeparatorNone(x, 0);
    assert x[0..] == x && x[..0] == "";
    assert LastPiece(x, 0) == (x, "");
    assert NextBackBody(x, 0) == (Some(PieceComponent(x)[0]), "");
  }

  /** Under a top-level directory "/a": a last piece that is a component
      leaves "/a" (the parent of "/etc/hosts" is "/etc"), and an empty or "."
      last piece is skipped and leaves the root (the parent of "/etc/" and of
      "/etc/." is "/"). */
  lemma ParentUnderTopLevel(a: string, x: string)
    requires a != "" && a != "." && '/' !in a && '/' !in x
    ensures Parent("/" + a + "/" + x) == if x == "" || x == "." then Some("/") else Some("/" + a)
  {
    var d := "/" + a;
    var p := d + "/" + x;
    assert BodyStart(p) == 1 && p[0] == '/';
    assert p[|d| + 1..] == x && p[..|d|] == d;
    LastSeparatorAt(p, 1, |d|);
    assert LastPiece(p, 1) == (x, d);
    assert d[1..] == a && d[..1] == "/";
    LastSeparatorNone(d, 1);
    assert LastPiece(d, 1) == (a, "/");
    assert TrimBack(d, 1) == d;
    if x == "" || x == "." {
      assert NextBackBody(p, 1) == NextBackBody(d, 1);
      assert NextBackBody(d, 1) == (Some(PieceComponent(a)[0]), "/");
    } else {
      assert NextBackBody(p, 1) == (Some(PieceComponent(x)[0]), d);
    }
  }

  lemma ParentOfName()
    ensures Parent("b") == Some("")
  {
    ParentOfRelativeName("b");
  }

  lemma ParentOfRoot()
    ensures Parent("/") == None && Parent("") == None
  {
  }

  lemma ParentOfRootDot()
    ensures Parent("/.") == None
  {
    LastSeparatorNone("/.", 1);
    assert "/."[1..] == "." && "/."[..1] == "/";
  }

  lemma ParentOfDotName()
    ensures Parent("./b") == Some(".")
  {
    var p := "./b";
    assert IncludesCurDir(p);
    assert p[2..] == "b";
    LastSeparatorAt(p, 1, 1);
    assert p[..1] == ".";
  }

  lemma ParentOfDot()
    ensures Parent(".") == Some("")
  {
    assert IncludesCurDir(".") && BodyStart(".") == 1;
    assert NextBackBody(".", 1) == (None, ".");
  }
}
