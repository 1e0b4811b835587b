/** Unix path handling from `src/path.rs`: `normalize`, which resolves `.` and `..`
    lexically without touching the filesystem, and `find_project_root`, which walks up
    from a directory to the nearest one holding `Cargo.toml`. A `PathBuf` is held as
    the list of its components; the filesystem is the set of paths that are files. */
module Paths {
  import opened Wrappers

  /** `std::path::Component` without the Windows `Prefix`. */
  datatype Component = RootDir | CurDir | ParentDir | Normal(name: string)

  /** The index of the first `/` in `s`, or `|s|` when there is none. */
  function SlashIndex(s: string): (i: nat)
    ensures i <= |s|
  {
    if s == [] || s[0] == '/' then 0 else 1 + SlashIndex(s[1..])
  }

  /** `SlashIndex` stops at the first separator. */
  lemma {:induction false} SlashIndexSpec(s: string)
    ensures SlashIndex(s) < |s| ==> s[SlashIndex(s)] == '/'
    ensures '/' !in s[..SlashIndex(s)]
  {
    if s != [] && s[0] != '/' {
      SlashIndexSpec(s[1..]);
      assert s[..SlashIndex(s)] == [s[0]] + s[1..][..SlashIndex(s[1..])];
    }
  }

  /** The pieces of `s` between separators, empty pieces included. */
  function Split(s: string): seq<string>
    decreases |s|
  {
    var i := SlashIndex(s);
    if i == |s| then [s] else [s[..i]] + Split(s[i + 1..])
  }

  /** No piece holds a separator. */
  lemma {:induction false} SplitNoSlash(s: string)
    ensures forall i :: 0 <= i < |Split(s)| ==> '/' !in Split(s)[i]
    decreases |s|
  {
    SlashIndexSpec(s);
    var i := SlashIndex(s);
    if i < |s| {
      SplitNoSlash(s[i + 1..]);
    } else {
      assert s[..i] == s;
    }
  }

  /** One piece as a component: empty pieces (from repeated or trailing separators)
      vanish, and `.` is kept only as the first piece of a relative path. */
  function Piece(p: string, first: bool): seq<Component> {
    if p == "" then []
    else if p == "." then (if first then [CurDir] else [])
    else if p == ".." then [ParentDir]
    else [Normal(p)]
  }

  function FromPieces(ps: seq<string>, first: bool): seq<Component>
    decreases |ps|
  {
    if ps == [] then [] else Piece(ps[0], first) + FromPieces(ps[1..], false)
  }

  /** `Path::components` on Unix. */
  function Components(path: string): seq<Component> {
    if path != [] && path[0] == '/' then [RootDir] + FromPieces(Split(path[1..]), false)
    else FromPieces(Split(path), true)
  }

  /** A name that can be a `Normal` component. */
  predicate NormalName(n: string) {
    n != "" && n != "." && n != ".." && '/' !in n
  }

  /** What `Components` can produce: a root or a `.` only in front, and normal
      components with proper names. */
  predicate Parsed(cs: seq<Component>) {
    forall i :: 0 <= i < |cs| ==>
      (cs[i].RootDir? || cs[i].CurDir? ==> i == 0) && (cs[i].Normal? ==> NormalName(cs[i].name))
  }

  /** A normalised path: an optional root in front and otherwise only normal
      components, never `.` or `..`. */
  predicate NormalForm(cs: seq<Component>) {
    forall i :: 0 <= i < |cs| ==>
      (cs[i].RootDir? ==> i == 0) && (!cs[i].RootDir? ==> cs[i].Normal? && NormalName(cs[i].name))
  }

  lemma {:induction false} FromPiecesParsed(ps: seq<string>, first: bool)
    requires forall i :: 0 <= i < |ps| ==> '/' !in ps[i]
    ensures Parsed(FromPieces(ps, first))
    ensures forall i :: 0 <= i < |FromPieces(ps, first)| ==> !FromPieces(ps, first)[i].RootDir?
    ensures !first ==> forall i :: 0 <= i < |FromPieces(ps, first)| ==> !FromPieces(ps, first)[i].CurDir?
    decreases |ps|
  {
    if ps != [] {
      FromPiecesParsed(ps[1..], false);
    }
  }

  /** Every list of components a path yields has the shape `Parsed` describes, and an
      absolute path yields the root first. */
  lemma ComponentsParsed(path: string)
    ensures Parsed(Components(path))
    ensures path != [] && path[0] == '/' ==> Components(path) != [] && Components(path)[0] == RootDir
  {
    if path != [] && path[0] == '/' {
      var ps := Split(path[1..]);
      SplitNoSlash(path[1..]);
      FromPiecesParsed(ps, false);
      var rest := FromPieces(ps, false);
      assert forall i :: 1 <= i < |[RootDir] + rest| ==> ([RootDir] + rest)[i] == rest[i - 1];
    } else {
      SplitNoSlash(path);
      FromPiecesParsed(Split(path), true);
    }
  }

  /** The state of `normalize`: the components pushed so far and `root_len`, counted
      in components (the root is one) rather than bytes. */
  datatype Buf = Buf(parts: seq<Component>, rootLen: nat)

  /** One turn of the loop of `normalize`. A `..` pops the last component only when
      the parent left behind is at least as long as the root, so the root stays. */
  function Step(b: Buf, c: Component): Buf {
    match c
    case RootDir => Buf(b.parts + [RootDir], |b.parts| + 1)
    case CurDir => b
    case ParentDir => if |b.parts| > b.rootLen then Buf(b.parts[..|b.parts| - 1], b.rootLen) else b
    case Normal(n) => Buf(b.parts + [Normal(n)], b.rootLen)
  }

  /** The loop of `normalize` over the components `cs`, from the buffer `b`. */
  function FoldFrom(b: Buf, cs: seq<Component>): Buf
    decreases |cs|
  {
    if cs == [] then b else FoldFrom(Step(b, cs[0]), cs[1..])
  }

  /** The loop of `normalize` from an empty buffer. */
  function Fold(cs: seq<Component>): Buf {
    FoldFrom(Buf([], 0), cs)
  }

  /** The text pushed for one component. */
  function Text(c: Component): string {
    match c
    case RootDir => "/"
    case CurDir => "."
    case ParentDir => ".."
    case Normal(n) => n
  }

  function Join(names: seq<string>): string
    decreases |names|
  {
    if names == [] then "" else if |names| == 1 then names[0] else names[0] + "/" + Join(names[1..])
  }

  function Texts(cs: seq<Component>): seq<string> {
    seq(|cs|, i requires 0 <= i < |cs| => Text(cs[i]))
  }

  /** The path a list of components spells: the root, then the other components
      separated by single `/`. */
  function Render(cs: seq<Component>): string {
    if cs != [] && cs[0] == RootDir then "/" + Join(Texts(cs[1..])) else Join(Texts(cs))
  }

  /** `normalize(path)` as a value. */
  function Normalized(path: string): string {
    Render(Fold(Components(path)).parts)
  }

  /** `normalize`: one pass over the components with the buffer as a stack. */
  method Normalize(path: string) returns (res: string)
    ensures res == Normalized(path)
  {
    var components := Components(path);
    var parts: seq<Component> := [];
    var rootLen: nat := 0;
    for i := 0 to |components|
      invariant FoldFrom(Buf(parts, rootLen), components[i..]) == Fold(components)
    {
      assert components[i..][1..] == components[i + 1..];
      match components[i] {
        case RootDir =>
          parts := parts + [RootDir];
          rootLen := |parts|;
        case CurDir =>
        case ParentDir =>
          if |parts| > rootLen {
            parts := parts[..|parts| - 1];
          }
        case Normal(n) =>
          parts := parts + [Normal(n)];
      }
    }
    res := Render(parts);
  }

  /** The `root_len` the loop keeps: one exactly when the buffer starts at the root. */
  function RootLen(cs: seq<Component>): nat {
    if cs != [] && cs[0] == RootDir then 1 else 0
  }

  /** The loop turns parsed components into a normal form, keeps `root_len` in step
      with it, and never pops the root of an absolute path. */
  lemma {:induction false} FoldFromNormal(b: Buf, cs: seq<Component>)
    requires NormalForm(b.parts) && b.rootLen == RootLen(b.parts)
    requires forall i :: 0 <= i < |cs| ==> cs[i].Normal? ==> NormalName(cs[i].name)
    requires forall i :: 0 <= i < |cs| ==> cs[i].RootDir? ==> i == 0 && b.parts == []
    ensures NormalForm(FoldFrom(b, cs).parts)
    ensures FoldFrom(b, cs).rootLen == RootLen(FoldFrom(b, cs).parts)
    ensures RootLen(b.parts) == 1 || (cs != [] && cs[0] == RootDir) ==> RootLen(FoldFrom(b, cs).parts) == 1
    decreases |cs|
  {
    if cs != [] {
      var b' := Step(b, cs[0]);
      if cs[0].ParentDir? && |b.parts| > b.rootLen {
        var p := b.parts[..|b.parts| - 1];
        assert forall i :: 0 <= i < |p| ==> p[i] == b.parts[i];
      }
      assert forall i :: 0 <= i < |cs[1..]| ==> cs[1..][i] == cs[i + 1];
      if cs[0].RootDir? {
        assert b'.parts == [RootDir];
      }
      FoldFromNormal(b', cs[1..]);
    }
  }

  /** `FoldFromNormal` for the components of a whole path. */
  lemma FoldNormal(cs: seq<Component>)
    requires Parsed(cs)
    ensures NormalForm(Fold(cs).parts)
    ensures Fold(cs).rootLen == RootLen(Fold(cs).parts)
    ensures cs != [] && cs[0] == RootDir ==> RootLen(Fold(cs).parts) == 1
  {
    FoldFromNormal(Buf([], 0), cs);
  }

  /** Components already in normal form are pushed as they are. */
  lemma {:induction false} FoldFromOfNormal(b: Buf, cs: seq<Component>)
    requires NormalForm(b.parts + cs) && b.rootLen == RootLen(b.parts)
    ensures FoldFrom(b, cs) == Buf(b.parts + cs, RootLen(b.parts + cs))
    decreases |cs|
  {
    if cs != [] {
      var all := b.parts + cs;
      assert all[|b.parts|] == cs[0];
      var b' := Step(b, cs[0]);
      assert b'.parts == b.parts + [cs[0]];
      if b.parts != [] {
        assert all[0] == b.parts[0];
      }
      assert all == b'.parts + cs[1..];
      FoldFromOfNormal(b', cs[1..]);
    } else {
      assert b.parts + cs == b.parts;
    }
  }

  /** A list already in normal form passes through the loop unchanged. */
  lemma FoldOfNormal(cs: seq<Component>)
    requires NormalForm(cs)
    ensures Fold(cs) == Buf(cs, RootLen(cs))
  {
    assert [] + cs == cs;
    FoldFromOfNormal(Buf([], 0), cs);
  }

  /** Folding a concatenation folds the second part from where the first left off. */
  lemma {:induction false} FoldFromAppend(b: Buf, xs: seq<Component>, ys: seq<Component>)
    ensures FoldFrom(b, xs + ys) == FoldFrom(FoldFrom(b, xs), ys)
    decreases |xs|
  {
    if xs != [] {
      assert (xs + ys)[1..] == xs[1..] + ys;
      FoldFromAppend(Step(b, xs[0]), xs[1..], ys);
    } else {
      assert xs + ys == ys;
    }
  }

  /** The loop never lets `root_len` run past the buffer. */
  lemma {:induction false} FoldFromRootLen(b: Buf, cs: seq<Component>)
    requires b.rootLen <= |b.parts|
    ensures FoldFrom(b, cs).rootLen <= |FoldFrom(b, cs).parts|
    decreases |cs|
  {
    if cs != [] {
      FoldFromRootLen(Step(b, cs[0]), cs[1..]);
    }
  }

  /** A `..` right after a normal component undoes it. */
  lemma ParentCancels(cs: seq<Component>, n: string)
    ensures Fold(cs + [Normal(n), ParentDir]) == Fold(cs)
  {
    FoldFromAppend(Buf([], 0), cs, [Normal(n), ParentDir]);
    var b := Fold(cs);
    FoldFromRootLen(Buf([], 0), cs);
    var b1 := Step(b, Normal(n));
    assert FoldFrom(b, [Normal(n), ParentDir]) == FoldFrom(b1, [ParentDir]) by {
      assert [Normal(n), ParentDir][1..] == [ParentDir];
    }
    assert FoldFrom(b1, [ParentDir]) == Step(b1, ParentDir) by {
      assert [ParentDir][1..] == [];
    }
    assert (b.parts + [Normal(n)])[..|b.parts|] == b.parts;
  }

  /** A `..` at the root is dropped: the root is never popped. */
  lemma ParentAtRoot(cs: seq<Component>)
    requires Parsed(cs) && Fold(cs).parts == [RootDir]
    ensures Fold(cs + [ParentDir]) == Fold(cs)
  {
    FoldNormal(cs);
    FoldFromAppend(Buf([], 0), cs, [ParentDir]);
  }

  /** The first separator of `a + b` is where `b` starts, when `a` has none. */
  lemma {:induction false} SlashIndexAfter(a: string, b: string)
    requires '/' !in a && (b == [] || b[0] == '/')
    ensures SlashIndex(a + b) == |a|
    decreases |a|
  {
    if a != [] {
      assert (a + b)[0] == a[0] && (a + b)[1..] == a[1..] + b;
      assert '/' !in a[1..] by {
        assert forall k :: 0 <= k < |a[1..]| ==> a[1..][k] == a[k + 1];
      }
      SlashIndexAfter(a[1..], b);
    } else {
      assert a + b == b;
    }
  }

  lemma {:induction false} SplitJoin(names: seq<string>)
    requires |names| >= 1
    requires forall i :: 0 <= i < |names| ==> '/' !in names[i]
    ensures Split(Join(names)) == names
    decreases |names|
  {
    if |names| > 1 {
      var s := Join(names);
      var rest := Join(names[1..]);
      assert s == names[0] + ("/" + rest);
      SlashIndexAfter(names[0], "/" + rest);
      assert s[..|names[0]|] == names[0];
      assert s[|names[0]| + 1..] == rest;
      SplitJoin(names[1..]);
    } else {
      assert Join(names) == names[0] + [];
      SlashIndexAfter(names[0], []);
    }
  }

  lemma {:induction false} FromPiecesOfNames(cs: seq<Component>, first: bool)
    requires forall i :: 0 <= i < |cs| ==> cs[i].Normal? && NormalName(cs[i].name)
    ensures FromPieces(Texts(cs), first) == cs
    decreases |cs|
  {
    if cs != [] {
      assert Texts(cs)[1..] == Texts(cs[1..]);
      FromPiecesOfNames(cs[1..], false);
      assert cs == [cs[0]] + cs[1..];
    }
  }

  /** Splitting the joined texts of normal components and reading the pieces back
      gives the components. */
  lemma ComponentsOfJoin(cs: seq<Component>, first: bool)
    requires forall i :: 0 <= i < |cs| ==> cs[i].Normal? && NormalName(cs[i].name)
    ensures FromPieces(Split(Join(Texts(cs))), first) == cs
  {
    FromPiecesOfNames(cs, first);
    if cs == [] {
      assert Split("") == [""];
    } else {
      SplitJoin(Texts(cs));
    }
  }

  lemma {:induction false} JoinHead(texts: seq<string>)
    requires |texts| >= 1 && texts[0] != ""
    ensures Join(texts) != [] && Join(texts)[0] == texts[0][0]
  {
    if |texts| > 1 {
      assert Join(texts) == texts[0] + "/" + Join(texts[1..]);
    }
  }

  /** Reading back a rendered normal form gives the same components. */
  lemma ComponentsRender(cs: seq<Component>)
    requires NormalForm(cs)
    ensures Components(Render(cs)) == cs
  {
    if cs != [] && cs[0] == RootDir {
      var names := cs[1..];
      assert forall i :: 0 <= i < |names| ==> names[i] == cs[i + 1];
      ComponentsOfJoin(names, false);
      assert Render(cs)[1..] == Join(Texts(names));
      assert cs == [RootDir] + names;
    } else {
      ComponentsOfJoin(cs, true);
      if cs != [] {
        JoinHead(Texts(cs));
        assert Texts(cs)[0] == cs[0].name;
      }
    }
  }

  /** `normalize` of an absolute path starts at the root, and its result holds only
      the root and normal components. */
  lemma NormalizedShape(path: string)
    ensures NormalForm(Components(Normalized(path)))
    ensures path != [] && path[0] == '/' ==> Components(Normalized(path)) != [] && Components(Normalized(path))[0] == RootDir
    ensures path != [] && path[0] == '/' ==> Normalized(path) != [] && Normalized(path)[0] == '/'
  {
    ComponentsParsed(path);
    FoldNormal(Components(path));
    ComponentsRender(Fold(Components(path)).parts);
  }

  /** A path spelt in normal form is its own normalisation. */
  lemma NormalizeFixesNormalForm(cs: seq<Component>)
    requires NormalForm(cs)
    ensures Normalized(Render(cs)) == Render(cs)
  {
    ComponentsRender(cs);
    FoldOfNormal(cs);
  }

  /** Normalising twice gives what normalising once gave. */
  lemma NormalizeIdempotent(path: string)
    ensures Normalized(Normalized(path)) == Normalized(path)
  {
    var parts := Fold(Components(path)).parts;
    ComponentsParsed(path);
    FoldNormal(Components(path));
    ComponentsRender(parts);
    FoldOfNormal(parts);
  }

  lemma {:induction false} FromPiecesAppend(ps: seq<string>, qs: seq<string>, first: bool)
    requires ps != [] || !first
    ensures FromPieces(ps + qs, first) == FromPieces(ps, first) + FromPieces(qs, false)
    decreases |ps|
  {
    if ps != [] {
      assert (ps + qs)[0] == ps[0] && (ps + qs)[1..] == ps[1..] + qs;
      FromPiecesAppend(ps[1..], qs, false);
    } else {
      assert ps + qs == qs;
    }
  }

  /** No piece holds a separator. */
  predicate NoSlash(ps: seq<string>) {
    forall i :: 0 <= i < |ps| ==> '/' !in ps[i]
  }

  /** An absolute path made of pieces: the root, then one component per piece that
      is neither empty nor `.`. */
  lemma PiecesComponents(ps: seq<string>)
    requires NoSlash(ps)
    ensures Components("/" + Join(ps)) == [RootDir] + FromPieces(ps, false)
  {
    assert ("/" + Join(ps))[1..] == Join(ps);
    if ps == [] {
      assert Split("") == [""];
      assert FromPieces([""], false) == [];
    } else {
      SplitJoin(ps);
    }
  }

  /** `Join` undoes `Split`: every path is its pieces joined by single separators,
      so `PiecesComponents` covers every absolute path. */
  lemma {:induction false} JoinSplit(s: string)
    ensures Join(Split(s)) == s
    ensures NoSlash(Split(s))
    decreases |s|
  {
    SplitNoSlash(s);
    var i := SlashIndex(s);
    if i < |s| {
      JoinSplit(s[i + 1..]);
      SlashIndexSpec(s);
      var rest := Split(s[i + 1..]);
      assert Split(s) == [s[..i]] + rest;
      assert s == s[..i] + "/" + s[i + 1..];
    }
  }

  /** Empty pieces (repeated, doubled-root or trailing separators) and `.` pieces
      yield no component. */
  lemma SeparatorsVanish(xs: seq<string>, p: string, ys: seq<string>)
    requires p == "" || p == "."
    ensures FromPieces(xs + [p] + ys, false) == FromPieces(xs + ys, false)
  {
    FromPiecesAppend(xs + [p], ys, false);
    FromPiecesAppend(xs, [p], false);
    FromPiecesAppend(xs, ys, false);
    assert FromPieces([p], false) == [];
  }

  /** A `..` piece after a normal piece yields `ParentDir` after its `Normal`, which
      `ParentCancels` then pops. */
  lemma ParentPiece(xs: seq<string>, n: string, ys: seq<string>)
    requires NormalName(n)
    ensures FromPieces(xs + [n, ".."] + ys, false) == FromPieces(xs, false) + [Normal(n), ParentDir] + FromPieces(ys, false)
  {
    FromPiecesAppend(xs + [n, ".."], ys, false);
    FromPiecesAppend(xs, [n, ".."], false);
    assert FromPieces([n, ".."], false) == [Normal(n), ParentDir] by {
      assert [n, ".."][1..] == [".."];
      assert Piece(n, false) == [Normal(n)];
      assert FromPieces([".."], false) == Piece("..", false) + FromPieces([], false);
      assert Piece("..", false) == [ParentDir];
    }
  }

  const CARGO_TOML := "Cargo.toml"

  /** `PathBuf::pop`: drops the last component unless there is no parent (an empty
      path or the bare root). */
  function Pop(cs: seq<Component>): Option<seq<Component>> {
    if cs != [] && !cs[|cs| - 1].RootDir? then Some(cs[..|cs| - 1]) else None
  }

  /** The directories `find_project_root` visits, nearest first. */
  function Ancestors(cs: seq<Component>): seq<seq<Component>>
    decreases |cs|
  {
    [cs] + match Pop(cs) case None => [] case Some(parent) => Ancestors(parent)
  }

  /** `dir.join("Cargo.toml").is_file()`, with `files` the paths that are files. */
  predicate HasManifest(dir: seq<Component>, files: set<string>) {
    Render(dir + [Normal(CARGO_TOML)]) in files
  }

  /** The first directory of `dirs` that holds a manifest. */
  function FirstRoot(dirs: seq<seq<Component>>, files: set<string>): Option<string>
    decreases |dirs|
  {
    if dirs == [] then None
    else if HasManifest(dirs[0], files) then Some(Render(dirs[0]))
    else FirstRoot(dirs[1..], files)
  }

  /** `find_project_root`: test the directory, then pop and test again. */
  method FindProjectRoot(start: string, files: set<string>) returns (r: Option<string>)
    ensures r == FirstRoot(Ancestors(Components(start)), files)
  {
    var current := Components(start);
    while true
      invariant FirstRoot(Ancestors(current), files) == FirstRoot(Ancestors(Components(start)), files)
      decreases |current|
    {
      if Render(current + [Normal(CARGO_TOML)]) in files {
        return Some(Render(current));
      }
      if current == [] || current[|current| - 1].RootDir? {
        return None;
      }
      current := current[..|current| - 1];
    }
  }

  /** The visited directories start at the start directory, each is its predecessor
      popped once, and the walk stops only where there is nothing left to pop. */
  lemma {:induction false} AncestorsSpec(cs: seq<Component>)
    ensures Ancestors(cs) != [] && Ancestors(cs)[0] == cs
    ensures forall k :: 0 <= k < |Ancestors(cs)| - 1 ==> Pop(Ancestors(cs)[k]) == Some(Ancestors(cs)[k + 1])
    ensures Pop(Ancestors(cs)[|Ancestors(cs)| - 1]).None?
    decreases |cs|
  {
    match Pop(cs)
    case None =>
    case Some(parent) =>
      AncestorsSpec(parent);
  }

  /** The first directory with a manifest wins: a result is a directory that holds
      one with no nearer directory holding one, and no result means none holds one. */
  lemma {:induction false} FirstRootSpec(dirs: seq<seq<Component>>, files: set<string>)
    ensures FirstRoot(dirs, files).Some? ==> exists k ::
      0 <= k < |dirs| && HasManifest(dirs[k], files) && FirstRoot(dirs, files) == Some(Render(dirs[k])) &&
      forall j :: 0 <= j < k ==> !HasManifest(dirs[j], files)
    ensures FirstRoot(dirs, files).None? <==> forall k :: 0 <= k < |dirs| ==> !HasManifest(dirs[k], files)
    decreases |dirs|
  {
    if dirs != [] && !HasManifest(dirs[0], files) {
      FirstRootSpec(dirs[1..], files);
      assert forall k :: 1 <= k < |dirs| ==> dirs[k] == dirs[1..][k - 1];
      if FirstRoot(dirs[1..], files).Some? {
        var k :| 0 <= k < |dirs[1..]| && HasManifest(dirs[1..][k], files) &&
          FirstRoot(dirs[1..], files) == Some(Render(dirs[1..][k])) &&
          forall j :: 0 <= j < k ==> !HasManifest(dirs[1..][j], files);
        assert HasManifest(dirs[k + 1], files);
      }
    }
  }

  /** A directory holding a manifest is its own project root. */
  lemma RootAtStart(start: string, files: set<string>)
    requires HasManifest(Components(start), files)
    ensures FirstRoot(Ancestors(Components(start)), files) == Some(Render(Components(start)))
  {
    AncestorsSpec(Components(start));
  }

  /** The case of the tests: from `root/src`, with a manifest in `root` only, the
      root is found; with no manifest in either and none further up, nothing is. */
  lemma RootFromChild(root: seq<Component>, files: set<string>)
    requires NormalForm(root) && root != []
    requires !HasManifest(root + [Normal("src")], files)
    ensures HasManifest(root, files) ==> FirstRoot(Ancestors(root + [Normal("src")]), files) == Some(Render(root))
    ensures (forall k :: 0 <= k < |Ancestors(root)| ==> !HasManifest(Ancestors(root)[k], files)) ==>
      FirstRoot(Ancestors(root + [Normal("src")]), files).None?
  {
    var sub := root + [Normal("src")];
    assert Pop(sub) == Some(root);
    assert Ancestors(sub) == [sub] + Ancestors(root);
    AncestorsSpec(root);
    FirstRootSpec(Ancestors(root), files);
    assert FirstRoot(Ancestors(sub), files) == FirstRoot(Ancestors(root), files);
  }
}
