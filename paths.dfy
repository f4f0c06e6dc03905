/** The part of `java.nio.file.Path` (Unix flavour) that `handleGet` uses to
    confine requests to the `www` directory: parsing a string into name
    elements, `resolve`, `normalize` and `startsWith`; and the sanitiser
    itself (RunnerServer.java:154-157). */
module JavaPaths {
  import opened Wrappers
  import opened Text

  /** A path: whether it starts at the root, and its name elements. */
  datatype Path = Path(absolute: bool, names: seq<string>)

  /** `Paths.get("www")`, the content root. */
  const Www: Path := Path(false, ["www"])

  /** A name element as the parser produces it: not empty, no `/`. */
  predicate IsName(n: string)
  {
    n != "" && '/' !in n
  }

  predicate WellFormed(p: Path)
  {
    forall i :: 0 <= i < |p.names| ==> IsName(p.names[i])
  }

  /** The non-empty pieces, in order. */
  function NonEmpty(ps: seq<string>): (r: seq<string>)
    ensures |r| <= |ps|
    ensures forall i :: 0 <= i < |r| ==> r[i] != "" && r[i] in ps
  {
    if ps == [] then []
    else if ps[0] == "" then NonEmpty(ps[1..])
    else [ps[0]] + NonEmpty(ps[1..])
  }

  /** `FileSystem.getPath(s)`: redundant and trailing slashes disappear, a
      leading slash makes the path absolute, and a NUL character raises
      InvalidPathException (None). */
  function ParsePath(s: string): (r: Option<Path>)
    ensures r.None? <==> '\0' in s
    ensures r.Some? ==> WellFormed(r.value)
    ensures r.Some? ==> r.value.absolute == (|s| > 0 && s[0] == '/')
  {
    SplitPieces(s, '/');
    if '\0' in s then None
    else Some(Path(|s| > 0 && s[0] == '/', NonEmpty(Split(s, '/'))))
  }

  /** The text of a path: a leading `/` when absolute, then the names
      separated by `/`. */
  function Render(p: Path): string
  {
    (if p.absolute then "/" else "") + Join(p.names, '/')
  }

  lemma {:induction false} NonEmptyKeeps(ps: seq<string>)
    requires forall i :: 0 <= i < |ps| ==> ps[i] != ""
    ensures NonEmpty(ps) == ps
    decreases |ps|
  {
    if ps != [] {
      NonEmptyKeeps(ps[1..]);
      assert [ps[0]] + ps[1..] == ps;
    }
  }

  /** The names of a relative text are its non-empty `/`-separated pieces,
      which for a rendered path are the path's own names. */
  lemma RenderNames(p: Path)
    requires WellFormed(p)
    ensures NonEmpty(Split(Join(p.names, '/'), '/')) == p.names
  {
    if p.names == [] {
      assert Split("", '/') == [""];
    } else {
      SplitJoin(p.names, '/');
      NonEmptyKeeps(p.names);
    }
  }

  /** Parsing gives back every well-formed path from its text: the names
      are exactly the `/`-separated names and the flag is the leading `/`. */
  lemma ParseRender(p: Path)
    requires WellFormed(p)
    requires forall i :: 0 <= i < |p.names| ==> '\0' !in p.names[i]
    ensures ParsePath(Render(p)) == Some(p)
  {
    var j := Join(p.names, '/');
    var s := Render(p);
    JoinAvoids(p.names, '/', '\0');
    RenderNames(p);
    if p.absolute {
      assert s == "" + ['/'] + j;
      SplitAround("", j, '/');
      assert NonEmpty([""] + Split(j, '/')) == NonEmpty(Split(j, '/'));
    } else {
      assert s == j;
      if p.names != [] {
        assert j[0] == p.names[0][0];
        assert p.names[0][0] != '/';
      }
    }
  }

  /** A relative path of one name. */
  lemma ParseName(a: string)
    requires IsName(a) && '\0' !in a
    ensures ParsePath(a) == Some(Path(false, [a]))
  {
    ParseRender(Path(false, [a]));
    assert Render(Path(false, [a])) == a;
  }

  lemma {:induction false} SplitThree(a: string, b: string, x: string)
    requires '/' !in a && '/' !in b && '/' !in x
    ensures Split(a + "/" + b + "/" + x, '/') == [a, b, x]
  {
    assert a + "/" + b + "/" + x == a + ['/'] + (b + ['/'] + x);
    SplitAround(a, b + ['/'] + x, '/');
    SplitAround(b, x, '/');
    SplitNone(x, '/');
  }

  /** A relative path of three names. */
  lemma ParseThreeNames(a: string, b: string, x: string)
    requires IsName(a) && IsName(b) && IsName(x)
    requires '\0' !in a && '\0' !in b && '\0' !in x
    ensures ParsePath(a + "/" + b + "/" + x) == Some(Path(false, [a, b, x]))
  {
    SplitThree(a, b, x);
    var s := a + "/" + b + "/" + x;
    assert s[0] == a[0];
    NonEmptyKeeps([a, b, x]);
  }

  /** `base.resolve(other)`: an absolute argument replaces the base,
      otherwise its names are appended. */
  function Resolve(base: Path, other: Path): Path
  {
    if other.absolute then other else Path(base.absolute, base.names + other.names)
  }

  /** One element of `normalize`: `.` vanishes; `..` cancels the name before
      it, is dropped directly under the root, and is otherwise kept. */
  function NormalizeStep(absolute: bool, kept: seq<string>, name: string): seq<string>
  {
    if name == "." then kept
    else if name == ".." then
      if |kept| > 0 && kept[|kept| - 1] != ".." then kept[..|kept| - 1]
      else if absolute then kept
      else kept + [".."]
    else kept + [name]
  }

  /** The names left after feeding `names` through NormalizeStep, from left
      to right, starting from `kept`. */
  function NormalizeFrom(absolute: bool, kept: seq<string>, names: seq<string>): seq<string>
    decreases |names|
  {
    if names == [] then kept
    else NormalizeFrom(absolute, NormalizeStep(absolute, kept, names[0]), names[1..])
  }

  /** `p.normalize()`. */
  function Normalize(p: Path): Path
  {
    Path(p.absolute, NormalizeFrom(p.absolute, [], p.names))
  }

  /** `p.startsWith(q)`: same kind of path, and the names of `q` are the
      first names of `p`, element by element (not a string prefix). */
  predicate StartsWith(p: Path, q: Path)
  {
    p.absolute == q.absolute && |q.names| <= |p.names| && p.names[..|q.names|] == q.names
  }

  // ---------------------------------------------------------------------
  // What normalize produces

  /** The shape of a normalized path: no `.`, every `..` before every other
      name, and no `..` at all under the root. */
  predicate Normal(absolute: bool, names: seq<string>)
  {
    && (forall i :: 0 <= i < |names| ==> names[i] != ".")
    && (forall i, j :: 0 <= i < j < |names| && names[j] == ".." ==> names[i] == "..")
    && (absolute ==> forall i :: 0 <= i < |names| ==> names[i] != "..")
  }

  predicate AllNames(ns: seq<string>)
  {
    forall i :: 0 <= i < |ns| ==> IsName(ns[i])
  }

  lemma StepNormal(absolute: bool, kept: seq<string>, name: string)
    requires Normal(absolute, kept) && AllNames(kept) && IsName(name)
    ensures Normal(absolute, NormalizeStep(absolute, kept, name))
    ensures AllNames(NormalizeStep(absolute, kept, name))
  {
    if name == ".." && !(|kept| > 0 && kept[|kept| - 1] != "..") && !absolute {
      var r := kept + [".."];
      forall i, j | 0 <= i < j < |r| && r[j] == ".." ensures r[i] == ".." {
        if j < |kept| {
        } else if i < |kept| - 1 {
          assert kept[|kept| - 1] == "..";
        }
      }
    }
  }

  lemma {:induction false} NormalizeFromNormal(absolute: bool, kept: seq<string>, names: seq<string>)
    requires Normal(absolute, kept) && AllNames(kept) && AllNames(names)
    ensures Normal(absolute, NormalizeFrom(absolute, kept, names))
    ensures AllNames(NormalizeFrom(absolute, kept, names))
    decreases |names|
  {
    if names != [] {
      StepNormal(absolute, kept, names[0]);
      NormalizeFromNormal(absolute, NormalizeStep(absolute, kept, names[0]), names[1..]);
    }
  }

  /** Every normalized path has the Normal shape and well-formed names. */
  lemma NormalizeIsNormal(p: Path)
    requires WellFormed(p)
    ensures Normal(p.absolute, Normalize(p).names) && WellFormed(Normalize(p))
    ensures Normalize(p).absolute == p.absolute
  {
    NormalizeFromNormal(p.absolute, [], p.names);
  }

  lemma {:induction false} NormalizeFromKeepsNormal(absolute: bool, kept: seq<string>, names: seq<string>)
    requires Normal(absolute, kept + names) && AllNames(kept + names)
    ensures NormalizeFrom(absolute, kept, names) == kept + names
    decreases |names|
  {
    if names != [] {
      var all := kept + names;
      var n := names[0];
      assert all[|kept|] == n;
      assert n != "." && n != "";
      if n == ".." {
        assert !absolute;
        forall i | 0 <= i < |kept| ensures kept[i] == ".." {
          assert all[i] == kept[i];
        }
        assert NormalizeStep(absolute, kept, n) == kept + [n];
      } else {
        assert NormalizeStep(absolute, kept, n) == kept + [n];
      }
      assert kept + [n] + names[1..] == all;
      NormalizeFromKeepsNormal(absolute, kept + [n], names[1..]);
    }
  }

  /** `normalize` is idempotent. */
  lemma NormalizeIdempotent(p: Path)
    requires WellFormed(p)
    ensures Normalize(Normalize(p)) == Normalize(p)
  {
    NormalizeIsNormal(p);
    var q := Normalize(p);
    assert [] + q.names == q.names;
    NormalizeFromKeepsNormal(q.absolute, [], q.names);
  }

  /** The names with every `.` taken out. */
  function WithoutDots(ns: seq<string>): (r: seq<string>)
    ensures |r| <= |ns|
  {
    if ns == [] then []
    else if ns[0] == "." then WithoutDots(ns[1..])
    else [ns[0]] + WithoutDots(ns[1..])
  }

  lemma {:induction false} NormalizeFromNoClimb(absolute: bool, kept: seq<string>, names: seq<string>)
    requires forall i :: 0 <= i < |names| ==> names[i] != ".."
    ensures NormalizeFrom(absolute, kept, names) == kept + WithoutDots(names)
    decreases |names|
  {
    if names != [] {
      var rest := WithoutDots(names[1..]);
      NormalizeFromNoClimb(absolute, NormalizeStep(absolute, kept, names[0]), names[1..]);
      if names[0] == "." {
        assert WithoutDots(names) == rest;
      } else {
        assert NormalizeStep(absolute, kept, names[0]) == kept + [names[0]];
        assert WithoutDots(names) == [names[0]] + rest;
        assert kept + [names[0]] + rest == kept + ([names[0]] + rest);
      }
    }
  }

  /** Normalizing from `kept` through `a` and then `b` is normalizing
      through `a + b`. */
  lemma {:induction false} NormalizeFromConcat(absolute: bool, kept: seq<string>, a: seq<string>, b: seq<string>)
    ensures NormalizeFrom(absolute, kept, a + b)
         == NormalizeFrom(absolute, NormalizeFrom(absolute, kept, a), b)
    decreases |a|
  {
    if a == [] {
      assert a + b == b;
    } else {
      assert (a + b)[0] == a[0] && (a + b)[1..] == a[1..] + b;
      NormalizeFromConcat(absolute, NormalizeStep(absolute, kept, a[0]), a[1..], b);
    }
  }

  // ---------------------------------------------------------------------
  // The sanitiser of handleGet

  /** `rawPath.split("\\?")[0]`. None is the ArrayIndexOutOfBoundsException
      raised when `rawPath` is one or more `?` and nothing else. */
  function StripQuery(rawPath: string): Option<string>
  {
    var parts := JavaSplit(rawPath, '?');
    if |parts| == 0 then None else Some(parts[0])
  }

  /** The query string goes: what is kept is the text before the first `?`,
      and the exception arises only when that text is empty. */
  lemma StripQueryPrefix(rawPath: string)
    ensures StripQuery(rawPath).Some? ==> StripQuery(rawPath).value == TakeUntil(rawPath, '?')
    ensures StripQuery(rawPath).None? ==> TakeUntil(rawPath, '?') == "" && rawPath != ""
  {
    JavaSplitFirst(rawPath, '?');
  }

  /** `if (path.equals("/")) path = "/index.html"`. */
  function DefaultDocument(path: string): string
  {
    if path == "/" then "/index.html" else path
  }

  /** Where the sanitiser sends a request. */
  datatype Resolution = Forbidden | Inside(file: Path)

  /** The file a path names before the check: the path without its first
      character, resolved onto `www` and normalized. */
  function Target(p: Path): Path
  {
    Normalize(Resolve(Www, p))
  }

  /** `WWW_ROOT.resolve(path.substring(1)).normalize()` and the
      `startsWith(WWW_ROOT)` test. `substring(1)` needs a non-empty path;
      None is the InvalidPathException a NUL character raises. */
  function SandboxPath(path: string): (r: Option<Resolution>)
    requires |path| > 0
    ensures r.None? <==> '\0' in path[1..]
  {
    match ParsePath(path[1..])
    case None => None
    case Some(p) =>
      var file := Target(p);
      Some(if StartsWith(file, Www) then Inside(file) else Forbidden)
  }

  /** A file confined to the sandbox: a relative path below `www` whose
      names are plain names, never `.` or `..`. */
  predicate Confined(f: Path)
  {
    && !f.absolute
    && |f.names| >= 1 && f.names[0] == "www"
    && forall i :: 0 <= i < |f.names| ==> IsName(f.names[i]) && f.names[i] != "." && f.names[i] != ".."
  }

  /** The security boundary. A request is let through exactly when the file
      it names lies inside `www` with no `.` or `..` left in it; in
      particular every accepted file is Confined. */
  lemma SandboxConfined(path: string)
    requires |path| > 0 && '\0' !in path[1..]
    ensures var p := ParsePath(path[1..]).value;
      SandboxPath(path) == (if Confined(Target(p)) then Some(Inside(Target(p))) else Some(Forbidden))
  {
    var p := ParsePath(path[1..]).value;
    var base := Resolve(Www, p);
    assert WellFormed(base);
    NormalizeIsNormal(base);
    var f := Target(p);
    if StartsWith(f, Www) {
      assert f.names[0] == "www";
    }
  }

  /** An absolute override (the path after its first character starts with
      `/`, as in `//etc/passwd`) is always forbidden. */
  lemma SandboxAbsoluteForbidden(path: string)
    requires |path| > 1 && path[1] == '/' && '\0' !in path[1..]
    ensures SandboxPath(path) == Some(Forbidden)
  {
  }

  /** A path that never climbs with `..` is let through, and names the file
      under `www` with its `.` elements removed. */
  lemma SandboxNoClimb(path: string)
    requires |path| > 0 && '\0' !in path[1..]
    requires var p := ParsePath(path[1..]).value;
      !p.absolute && forall i :: 0 <= i < |p.names| ==> p.names[i] != ".."
    ensures var p := ParsePath(path[1..]).value;
      SandboxPath(path) == Some(Inside(Path(false, ["www"] + WithoutDots(p.names))))
  {
    var p := ParsePath(path[1..]).value;
    assert Resolve(Www, p).names == ["www"] + p.names;
    assert forall i :: 0 <= i < |["www"] + p.names| ==> (["www"] + p.names)[i] != "..";
    NormalizeFromNoClimb(false, [], ["www"] + p.names);
    assert WithoutDots(["www"] + p.names) == ["www"] + WithoutDots(p.names);
    assert [] + (["www"] + WithoutDots(p.names)) == ["www"] + WithoutDots(p.names);
  }

  /** A path that starts by climbing out of `www` is judged only by where
      the rest of it leads: `www/../rest` normalizes as `rest` alone, so it
      is let through only if `rest` walks back into `www`. */
  lemma SandboxClimbOut(path: string)
    requires |path| > 0 && '\0' !in path[1..]
    requires var p := ParsePath(path[1..]).value;
      !p.absolute && |p.names| > 0 && p.names[0] == ".."
    ensures var p := ParsePath(path[1..]).value;
      Target(p) == Path(false, NormalizeFrom(false, [], p.names[1..]))
  {
    var p := ParsePath(path[1..]).value;
    var ns := ["www"] + p.names;
    assert ns == ["www", ".."] + p.names[1..];
    NormalizeFromConcat(false, [], ["www", ".."], p.names[1..]);
    assert NormalizeFrom(false, [], ["www", ".."]) == [];
  }
}
