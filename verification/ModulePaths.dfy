/** Relative references over paths (section 5.2 of RFC 3986), and why the wreckage of a
    module specifier resolved against a proxy link can be repaired. */
module ModulePaths {
  import opened Text
  import opened Words

  /** The segments of an absolute path, without the leading slash. */
  type Path = seq<string>

  /** Remove dot segments from `segs`, on top of the segments already kept. */
  function Normalize(kept: Path, segs: Path): Path
    decreases |segs|
  {
    if segs == [] then kept
    else
      var s, rest := segs[0], segs[1..];
      if s == "." then if rest == [] then kept + [""] else Normalize(kept, rest)
      else if s == ".." then
        var up := if kept == [] then [] else kept[..|kept| - 1];
        if rest == [] then up + [""] else Normalize(up, rest)
      else Normalize(kept + [s], rest)
  }

  /** Resolve a relative-path reference against the path of a base URL. */
  function ResolvePath(base: Path, ref: Path): Path {
    Normalize([], (if base == [] then [] else base[..|base| - 1]) + ref)
  }

  predicate NoDots(p: Path) { forall i | 0 <= i < |p| :: p[i] != "." && p[i] != ".." }

  /** The reference never climbs above the `depth` segments it starts with. */
  predicate Stays(depth: nat, segs: Path)
    decreases |segs|
  {
    if segs == [] then true
    else if segs[0] == "." then Stays(depth, segs[1..])
    else if segs[0] == ".." then depth > 0 && Stays(depth - 1, segs[1..])
    else Stays(depth + 1, segs[1..])
  }

  lemma {:induction false} NormalizeHasNoDots(kept: Path, segs: Path)
    requires NoDots(kept)
    ensures NoDots(Normalize(kept, segs))
    decreases |segs|
  {
    if segs != [] {
      var s, rest := segs[0], segs[1..];
      if s == "." {
        NormalizeHasNoDots(kept, rest);
      } else if s == ".." {
        NormalizeHasNoDots(if kept == [] then [] else kept[..|kept| - 1], rest);
      } else {
        NormalizeHasNoDots(kept + [s], rest);
      }
    }
  }

  /** Segments that cannot be climbed out of do not matter to what follows them. */
  lemma {:induction false} NormalizeUnder(dir: Path, kept: Path, segs: Path)
    requires Stays(|kept|, segs)
    ensures Normalize(dir + kept, segs) == dir + Normalize(kept, segs)
    decreases |segs|
  {
    if segs != [] {
      var s, rest := segs[0], segs[1..];
      if s == "." {
        NormalizeUnder(dir, kept, rest);
        assert dir + kept + [""] == dir + (kept + [""]);
      } else if s == ".." {
        var up := kept[..|kept| - 1];
        assert (dir + kept)[..|dir + kept| - 1] == dir + up;
        NormalizeUnder(dir, up, rest);
        assert dir + up + [""] == dir + (up + [""]);
      } else {
        assert dir + kept + [s] == dir + (kept + [s]);
        NormalizeUnder(dir, kept + [s], rest);
      }
    }
  }

  /** Ordinary segments are kept. */
  lemma {:induction false} NormalizePlain(kept: Path, p: Path, rest: Path)
    requires NoDots(p)
    ensures Normalize(kept, p + rest) == Normalize(kept + p, rest)
    decreases |p|
  {
    if p == [] {
      assert p + rest == rest && kept + p == kept;
    } else {
      assert (p + rest)[0] == p[0] && (p + rest)[1..] == p[1..] + rest;
      assert p[0] != "." && p[0] != "..";
      NormalizePlain(kept + [p[0]], p[1..], rest);
      assert kept + [p[0]] + p[1..] == kept + p;
    }
  }

  function Dir(base: Path): Path { if base == [] then [] else base[..|base| - 1] }

  lemma ResolveUnder(base: Path, ref: Path)
    requires NoDots(Dir(base)) && Stays(0, ref)
    ensures ResolvePath(base, ref) == Dir(base) + Normalize([], ref)
  {
    NormalizePlain([], Dir(base), ref);
    NormalizeUnder(Dir(base), [], ref);
    assert [] + Dir(base) == Dir(base) && Dir(base) + [] == Dir(base);
  }

  /** The browser resolves a specifier against "/p/<token>"; the segments after the prefix,
      resolved again against the importing file, lead where the specifier does. */
  lemma WreckageSegments(token: string, file: Path, spec: Path)
    requires NoDots(Dir(file)) && Stays(0, spec)
    ensures var n := Normalize([], spec);
      && ResolvePath(["p", token], spec) == ["p"] + n && NoDots(n)
      && ResolvePath(file, n) == ResolvePath(file, spec) == Dir(file) + n
  {
    assert Dir(["p", token]) == ["p"];
    ResolveUnder(["p", token], spec);
    ResolveUnder(file, spec);
    NormalizeHasNoDots([], spec);
    ResolvePlain(file, Normalize([], spec));
  }

  lemma UpAndIn(kept: Path, x: string, name: string)
    requires NoDots([name])
    ensures Normalize(kept + [x], ["..", name]) == kept + [name]
  {
    assert (kept + [x])[..|kept|] == kept;
    assert ["..", name][1..] == [name] && [name][1..] == [];
    assert name != "." && name != ".." by { assert [name][0] == name; }
    assert Normalize(kept, [name]) == Normalize(kept + [name], []);
  }

  /** A specifier that climbs out of its directory leaves the prefix, and the directory it
      meant is lost. */
  lemma ClimbingIsLost(token: string)
    ensures var spec, file := ["..", "x.js"], ["a", "b", "c.js"];
      && !Stays(0, spec)
      && ResolvePath(["p", token], spec) == ["x.js"]
      && ResolvePath(file, spec) == ["a", "x.js"]
  {
    var spec, file := ["..", "x.js"], ["a", "b", "c.js"];
    UpAndIn([], "p", "x.js");
    UpAndIn(["a"], "b", "x.js");
    NormalizePlain([], ["p"], spec);
    NormalizePlain([], ["a", "b"], spec);
    hide Normalize;
    assert Dir(["p", token]) == ["p"] == [] + ["p"] && Dir(file) == ["a", "b"] == [] + ["a", "b"] == ["a"] + ["b"];
    assert [] + ["x.js"] == ["x.js"] && ["a"] + ["x.js"] == ["a", "x.js"];
  }

  /** What `segs` does to a directory too deep to climb out of: how many of its segments
      it removes, and the segments it leaves on top. */
  function Effect(up: nat, kept: Path, segs: Path): (r: (nat, Path))
    ensures up <= r.0 <= up + |segs|
    decreases |segs|
  {
    if segs == [] then (up, kept)
    else
      var s, rest := segs[0], segs[1..];
      if s == "." then if rest == [] then (up, kept + [""]) else Effect(up, kept, rest)
      else if s == ".." then
        var u := if kept == [] then up + 1 else up;
        var k := if kept == [] then [] else kept[..|kept| - 1];
        if rest == [] then (u, k + [""]) else Effect(u, k, rest)
      else Effect(up, kept + [s], rest)
  }

  lemma {:induction false} EffectIs(dir: Path, up: nat, kept: Path, segs: Path)
    requires up + |segs| <= |dir|
    ensures Effect(up, kept, segs).0 <= |dir|
    ensures Normalize(dir[..|dir| - up] + kept, segs)
         == dir[..|dir| - Effect(up, kept, segs).0] + Effect(up, kept, segs).1
    decreases |segs|
  {
    if segs != [] {
      var s, rest, d := segs[0], segs[1..], dir[..|dir| - up];
      if s == "." {
        EffectIs(dir, up, kept, rest);
        assert d + kept + [""] == d + (kept + [""]);
      } else if s == ".." {
        if kept == [] {
          EffectIs(dir, up + 1, [], rest);
          OneUp(dir, up);
        } else {
          var k := kept[..|kept| - 1];
          EffectIs(dir, up, k, rest);
          WithoutLast(d, kept);
          assert d + k + [""] == d + (k + [""]);
        }
      } else {
        EffectIs(dir, up, kept + [s], rest);
        assert d + kept + [s] == d + (kept + [s]);
      }
    }
  }

  lemma OneUp(dir: Path, up: nat)
    requires up < |dir|
    ensures var d := dir[..|dir| - up];
      d + [] == d && d[..|d| - 1] == dir[..|dir| - (up + 1)] == dir[..|dir| - (up + 1)] + []
  {
  }

  lemma WithoutLast(d: Path, kept: Path)
    requires kept != []
    ensures (d + kept)[..|d + kept| - 1] == d + kept[..|kept| - 1]
  {
  }

  lemma {:induction false} EffectClimbs(up: nat, kept: Path, segs: Path)
    ensures Effect(up, kept, segs).0 > up <==> !Stays(|kept|, segs)
    decreases |segs|
  {
    if segs != [] {
      var s, rest := segs[0], segs[1..];
      if s == "." {
        EffectClimbs(up, kept, rest);
      } else if s == ".." {
        if kept != [] {
          EffectClimbs(up, kept[..|kept| - 1], rest);
        }
      } else {
        EffectClimbs(up, kept + [s], rest);
      }
    }
  }

  /** A file `n` directories deep, all of them called `name`. */
  function Deep(name: string, n: nat): Path { seq(n, _ => name) + ["x"] }

  lemma ResolveByEffect(file: Path, spec: Path)
    requires NoDots(Dir(file)) && |spec| <= |Dir(file)|
    ensures var d, e := Dir(file), Effect(0, [], spec);
      e.0 <= |d| && ResolvePath(file, spec) == d[..|d| - e.0] + e.1
  {
    hide *;
    var d := Dir(file);
    EffectIs(d, 0, [], spec);
    assert d[..|d| - 0] + [] == d && [] + d == d;
    NormalizePlain([], d, spec);
    ResolveIs(file, spec);
  }

  lemma ResolveIs(file: Path, ref: Path)
    ensures ResolvePath(file, ref) == Normalize([], Dir(file) + ref)
  {
  }

  lemma ResolvePlain(file: Path, ref: Path)
    requires NoDots(Dir(file)) && NoDots(ref)
    ensures ResolvePath(file, ref) == Dir(file) + ref
  {
    hide Normalize;
    var p := Dir(file) + ref;
    NormalizePlain([], p, []);
    assert p + [] == p == [] + p;
    LastKept(p);
  }

  lemma SamePlace(dir: Path, w: Path, up: nat, tail: Path)
    requires 0 < up <= |dir| && dir + w == dir[..|dir| - up] + tail
    ensures tail != [] && tail[0] == dir[|dir| - up]
  {
    assert (dir + w)[|dir| - up] == dir[|dir| - up];
  }

  lemma LastKept(p: Path)
    ensures Normalize(p, []) == p
  {
  }

  lemma DeepHasNoDots(name: string, n: nat)
    requires NoDots([name])
    ensures NoDots(Dir(Deep(name, n)))
  {
    assert [name][0] == name;
  }

  lemma PlainNames()
    ensures NoDots(["a"]) && NoDots(["b"])
  {
  }

  // --- as text ---

  function PathText(p: Path): string { "/" + Join(p, "/") }

  /** A character that does not end, quote or escape its path. */
  predicate IsPathChar(c: char) { c > ' ' && c != '/' && c != '\\' && c != '?' && c != '#' }

  /** Browsers also read these as dot segments. */
  predicate HidesDots(s: string) {
    var low := ToLower(s);
    low == "%2e" || low == ".%2e" || low == "%2e." || low == "%2e%2e"
  }

  predicate IsSegment(s: string) { (forall c | c in s :: IsPathChar(c)) && !HidesDots(s) }

  predicate IsSchemeChar(c: char) { IsLetter(c) || '0' <= c <= '9' || c == '+' || c == '-' || c == '.' }

  /** The text starts with a scheme and its colon. */
  predicate HasScheme(text: string) {
    var k := Find(text, Only(':'));
    k < |text| && k > 0 && IsLetter(text[0]) && forall i | 0 <= i < k :: IsSchemeChar(text[i])
  }

  /** A relative-path reference: not empty, not rooted, and without a scheme. */
  predicate IsRelative(text: string) {
    && text != "" && text[0] != '/' && !HasScheme(text)
    && forall s | s in Split(text, '/') :: IsSegment(s)
  }

  /** What follows the first segment does not matter to its scheme. */
  lemma SchemeIsFirst(first: string, rest: string)
    requires rest == "" || (rest[0] != ':' && !IsSchemeChar(rest[0]))
    ensures HasScheme(first + rest) <==> HasScheme(first)
  {
    var s, k := first + rest, Find(first, Only(':'));
    assert forall i | 0 <= i < |first| :: s[i] == first[i];
    if k < |first| {
      FindIs(s, Only(':'), k);
    } else if rest == "" {
      assert s == first;
    } else {
      assert s[|first|] == rest[0];
      LateColon(s, |first|);
    }
  }

  lemma LateColon(s: string, n: nat)
    requires n < |s| && !IsSchemeChar(s[n]) && forall i | 0 <= i <= n :: s[i] != ':'
    ensures !HasScheme(s)
  {
    assert Find(s, Only(':')) > n by {
      var k := Find(s, Only(':'));
      assert k < |s| ==> In(s[k], Only(':'));
    }
  }

  lemma {:induction false} JoinFirst(n: Path)
    requires n != []
    ensures Join(n, "/") == if |n| == 1 then n[0] else n[0] + ("/" + Join(n[1..], "/"))
  {
    if |n| > 1 {
      assert n == [n[0]] + n[1..];
      JoinMore(n[0], n[1..], "/");
    }
  }

  lemma SegmentHasNoSlash(s: string)
    requires IsSegment(s)
    ensures Free(s, Only('/'))
  {
    assert forall i | 0 <= i < |s| :: s[i] in s;
  }

  lemma {:induction false} SplitJoin(p: Path)
    requires p != [] && forall s | s in p :: IsSegment(s)
    ensures Split(Join(p, "/"), '/') == p
  {
    hide Split, IsSegment;
    assert p[0] in p;
    SegmentHasNoSlash(p[0]);
    if |p| == 1 {
      SplitOne(p[0], '/', "");
    } else {
      SplitJoin(p[1..]);
      SplitOne(p[0], '/', Join(p[1..], "/"));
      Assoc(p[0], "/", Join(p[1..], "/"));
    }
  }

  lemma {:induction false} NormalizeSegments(kept: Path, segs: Path)
    requires (forall s | s in kept :: IsSegment(s)) && forall s | s in segs :: IsSegment(s)
    ensures forall s | s in Normalize(kept, segs) :: IsSegment(s)
    decreases |segs|
  {
    EmptySegment();
    hide IsSegment;
    if segs != [] {
      var s, rest := segs[0], segs[1..];
      if s == "." {
        NormalizeSegments(kept, rest);
      } else if s == ".." {
        NormalizeSegments(if kept == [] then [] else kept[..|kept| - 1], rest);
      } else {
        NormalizeSegments(kept + [s], rest);
      }
    }
  }

  lemma EmptySegment()
    ensures IsSegment("")
  {
  }

  lemma {:induction false} NormalizeIsNotEmpty(kept: Path, segs: Path)
    requires segs != []
    ensures Normalize(kept, segs) != []
    decreases |segs|
  {
    var s, rest := segs[0], segs[1..];
    if rest != [] {
      var up := if kept == [] then [] else kept[..|kept| - 1];
      NormalizeIsNotEmpty(if s == "." then kept else if s == ".." then up else kept + [s], rest);
    }
  }

  lemma SegmentsOf(spec: string)
    requires IsRelative(spec)
    ensures var n := Normalize([], Split(spec, '/')); n != [] && forall s | s in n :: IsSegment(s)
  {
    hide Normalize, Split, IsSegment;
    NormalizeSegments([], Split(spec, '/'));
    NormalizeIsNotEmpty([], Split(spec, '/'));
  }

  /** Text that is relative and splits back into its segments. */
  lemma JoinIsRelative(n: Path)
    requires n != [] && n[0] != "" && !HasScheme(n[0]) && forall s | s in n :: IsSegment(s)
    ensures IsRelative(Join(n, "/")) && Split(Join(n, "/"), '/') == n
  {
    hide Split, IsSegment, Join, HasScheme;
    assert n[0] in n;
    SplitJoin(n);
    JoinFirst(n);
    SegmentHasNoSlash(n[0]);
    assert !In(n[0][0], Only('/'));
    if |n| > 1 {
      SchemeIsFirst(n[0], "/" + Join(n[1..], "/"));
    }
  }

  /** The text after the prefix is itself a relative reference with the normalised
      specifier's segments, when its first segment is not empty and starts no scheme. */
  lemma WreckageText(token: string, spec: string)
    requires IsRelative(spec) && Stays(0, Split(spec, '/'))
    requires var n := Normalize([], Split(spec, '/')); n != [] && n[0] != "" && !HasScheme(n[0])
    ensures var n := Normalize([], Split(spec, '/'));
      && Wreckage(token, spec) == "/p/" + Join(n, "/")
      && IsRelative(Join(n, "/")) && Split(Join(n, "/"), '/') == n
  {
    hide Normalize, Split, IsSegment, Stays, HasScheme, IsRelative, Wreckage;
    SegmentsOf(spec);
    JoinIsRelative(Normalize([], Split(spec, '/')));
    WreckageIs(token, spec);
  }

  // --- what becomes of a specifier ---

  /** The path a browser requests for a specifier in a file that was loaded from a link. */
  function Wreckage(token: string, spec: string): string { PathText(ResolvePath(["p", token], Split(spec, '/'))) }

  lemma WreckageIs(token: string, spec: string)
    requires IsRelative(spec) && Stays(0, Split(spec, '/'))
    ensures Wreckage(token, spec) == "/p/" + Join(Normalize([], Split(spec, '/')), "/")
  {
    hide Normalize, Split, IsSegment, Stays, Join;
    SegmentsOf(spec);
    var n := Normalize([], Split(spec, '/'));
    WreckageSegments(token, [], Split(spec, '/'));
    JoinMore("p", n, "/");
    assert "/" + ("p" + ("/" + Join(n, "/"))) == "/p/" + Join(n, "/");
  }

  /** What the runtime takes for the specifier. */
  function AfterPrefix(path: string): string { if "/p/" <= path then path[3..] else path }

  /** Where a reference leads from a file: to a path of its own site, or away from it. */
  datatype Place = Here(path: Path) | Elsewhere

  /** A reference without query or fragment, against a file (section 5.2 of RFC 3986). One
      with a scheme is never the path that its text would spell. */
  function Meaning(file: Path, ref: string): Place {
    if ref == "" then Here(file)
    else if "//" <= ref || HasScheme(ref) then Elsewhere
    else if ref[0] == '/' then Here(Normalize([], Split(ref[1..], '/')))
    else Here(ResolvePath(file, Split(ref, '/')))
  }

  /** Where the runtime sends a module's request; `served` are the paths it takes for the
      proxy's own, which hold a token or name the engine, and leaves alone. */
  function Repaired(served: string -> bool, token: string, file: Path, spec: string): Place {
    var path := Wreckage(token, spec);
    if served(path) then Elsewhere else Meaning(file, AfterPrefix(path))
  }

  /** The specifier's own meaning is what the runtime arrives at. */
  predicate Recovers(served: string -> bool, token: string, file: Path, spec: string) {
    Repaired(served, token, file, spec) == Here(ResolvePath(file, Split(spec, '/')))
  }

  /** The condition a caller can check: the specifier never climbs above its directory, and
      its normalised text is no empty or rooted reference, no scheme and no token. */
  predicate IsRecoverable(served: string -> bool, spec: string) {
    && Stays(0, Split(spec, '/'))
    && var n := Normalize([], Split(spec, '/'));
      n != [] && n[0] != "" && !HasScheme(n[0]) && !served("/p/" + Join(n, "/"))
  }

  /** What is left of a specifier for the runtime to resolve, in segments. */
  function Left(token: string, spec: string): Path {
    var w := ResolvePath(["p", token], Split(spec, '/'));
    if w != [] && "/p/" <= Wreckage(token, spec) then w[1..] else [""] + w
  }

  lemma WreckSegments(token: string, spec: string)
    requires IsRelative(spec)
    ensures var w := ResolvePath(["p", token], Split(spec, '/'));
      w != [] && NoDots(w) && forall s | s in w :: IsSegment(s)
  {
    hide Normalize, Split, IsSegment, HasScheme;
    var segs := ["p"] + Split(spec, '/');
    assert Dir(["p", token]) == ["p"];
    assert IsSegment("p") by { PIsSegment(); }
    NormalizeSegments([], segs);
    NormalizeIsNotEmpty([], segs);
    NormalizeHasNoDots([], segs);
  }

  lemma PIsSegment()
    ensures IsSegment("p")
  {
    assert ToLower("p")[0] == 'p';
  }

  /** The text the runtime resolves is those segments. */
  lemma LeftText(token: string, spec: string)
    requires IsRelative(spec)
    ensures var v := Left(token, spec);
      && v != [] && NoDots(v) && (forall s | s in v :: IsSegment(s))
      && AfterPrefix(Wreckage(token, spec)) == Join(v, "/")
  {
    hide Normalize, Split, IsSegment, HasScheme, ResolvePath, Join, IsRelative;
    var w := ResolvePath(["p", token], Split(spec, '/'));
    WreckSegments(token, spec);
    EmptySegment();
    if "/p/" <= Wreckage(token, spec) {
      var path := Wreckage(token, spec);
      var x := path[3..];
      assert path == "/p/" + x && path[1..] == "p" + (['/'] + x);
      assert path == "/" + Join(w, "/") && path[1..] == Join(w, "/");
      SplitJoin(w);
      SplitOne("p", '/', x);
      assert w == ["p"] + Split(x, '/');
      JoinFirst(w);
      assert w[1..] == Split(x, '/');
      SameTail("p", "/" + Join(w[1..], "/"), ['/'] + x);
    } else {
      JoinFirst([""] + w);
      assert ([""] + w)[1..] == w && "" + ("/" + Join(w, "/")) == "/" + Join(w, "/");
    }
  }

  lemma SameTail(a: string, b: string, c: string)
    requires a + b == a + c
    ensures b == c && (b != "" ==> b[1..] == c[1..])
  {
    assert (a + b)[|a|..] == b && (a + c)[|a|..] == c;
  }

  /** What normalised segments, joined and read as a reference, mean. */
  lemma MeaningOfJoin(file: Path, v: Path)
    requires v != [] && NoDots(v) && NoDots(Dir(file)) && forall s | s in v :: IsSegment(s)
    ensures var m := Meaning(file, Join(v, "/"));
      if v == [""] then m == Here(file)
      else if v[0] == "" then m == Elsewhere || m == Here(v[1..])
      else m == if HasScheme(v[0]) then Elsewhere else Here(Dir(file) + v)
  {
    hide Normalize, Split, IsSegment, HasScheme, ResolvePath, Join;
    JoinFirst(v);
    if v[0] != "" {
      NamedFirst(file, v);
    } else if |v| > 1 {
      RootedFirst(file, v[1..]);
      assert forall s | s in v[1..] :: s in v;
      assert "" + ("/" + Join(v[1..], "/")) == "/" + Join(v[1..], "/");
    }
  }

  lemma NamedFirst(file: Path, v: Path)
    requires v != [] && NoDots(v) && NoDots(Dir(file)) && (forall s | s in v :: IsSegment(s)) && v[0] != ""
    ensures Meaning(file, Join(v, "/")) == if HasScheme(v[0]) then Elsewhere else Here(Dir(file) + v)
  {
    hide Normalize, Split, IsSegment, HasScheme, ResolvePath, Join;
    var ref := Join(v, "/");
    JoinFirst(v);
    assert v[0] in v && ref[0] == v[0][0];
    SegmentHasNoSlash(v[0]);
    assert !In(v[0][0], Only('/'));
    if |v| > 1 {
      SchemeIsFirst(v[0], "/" + Join(v[1..], "/"));
    }
    SplitJoin(v);
    ResolvePlain(file, v);
  }

  lemma RootedFirst(file: Path, v: Path)
    requires NoDots([""] + v) && (forall s | s in v :: IsSegment(s)) && v != []
    ensures var m := Meaning(file, "/" + Join(v, "/")); m == Elsewhere || m == Here(v)
  {
    hide Normalize, Split, IsSegment, HasScheme, ResolvePath, Join;
    var ref := "/" + Join(v, "/");
    assert ref[1..] == Join(v, "/");
    SplitJoin(v);
    assert forall i | 0 <= i < |v| :: v[i] == ([""] + v)[i + 1];
    NormalizePlain([], v, []);
    assert v + [] == v == [] + v;
    LastKept(v);
  }

  /** A specifier that does not climb leaves its own normal form. */
  lemma StaysLeaves(token: string, file: Path, spec: string)
    requires IsRelative(spec) && NoDots(Dir(file)) && Stays(0, Split(spec, '/'))
    ensures var n := Normalize([], Split(spec, '/'));
      && n != [] && Left(token, spec) == n && Wreckage(token, spec) == "/p/" + Join(n, "/")
      && ResolvePath(file, Split(spec, '/')) == Dir(file) + n
  {
    hide Normalize, Split, IsSegment, HasScheme, ResolvePath, Join, IsRelative, Stays, Wreckage;
    SegmentsOf(spec);
    WreckageIs(token, spec);
    WreckageSegments(token, file, Split(spec, '/'));
    var n := Normalize([], Split(spec, '/'));
    assert (["p"] + n)[1..] == n;
  }

  lemma WreckageIsRecoverable(served: string -> bool, token: string, file: Path, spec: string)
    requires IsRelative(spec) && NoDots(Dir(file)) && IsRecoverable(served, spec)
    ensures Recovers(served, token, file, spec)
  {
    hide Normalize, Split, IsSegment, HasScheme, ResolvePath, Join, IsRelative, Stays, Wreckage, Left, Meaning;
    StaysLeaves(token, file, spec);
    LeftText(token, spec);
    MeaningOfJoin(file, Left(token, spec));
  }

  /** Without climbing, nothing else is recovered, already in a file at the root. */
  lemma OthersAreLost(served: string -> bool, token: string, spec: string)
    requires IsRelative(spec) && Stays(0, Split(spec, '/')) && !IsRecoverable(served, spec)
    ensures !Recovers(served, token, ["x"], spec)
  {
    hide Normalize, Split, IsSegment, HasScheme, ResolvePath, Join, IsRelative, Stays, Wreckage, Left, Meaning;
    assert Dir(["x"]) == [];
    StaysLeaves(token, ["x"], spec);
    LeftText(token, spec);
    MeaningOfJoin(["x"], Left(token, spec));
    var n := Left(token, spec);
    assert [] + n == n;
    assert n == [""] ==> n[0] != ["x"][0];
  }

  /** A climbing specifier that is recovered in a deep file tells the name of the
      directories it is in, by its text alone. */
  lemma ClimbTells(served: string -> bool, token: string, name: string, spec: string)
    requires IsRelative(spec) && NoDots([name]) && !Stays(0, Split(spec, '/'))
    requires Recovers(served, token, Deep(name, |Split(spec, '/')| + 1), spec)
    ensures Told(token, spec) == Some(name)
  {
    hide Normalize, Split, IsSegment, HasScheme, ResolvePath, Join, IsRelative, Stays, Wreckage, Left, Meaning, Effect;
    var segs, v := Split(spec, '/'), Left(token, spec);
    var file := Deep(name, |segs| + 1);
    var d, e := Dir(file), Effect(0, [], segs);
    DeepHasNoDots(name, |segs| + 1);
    EffectClimbs(0, [], segs);
    ResolveByEffect(file, segs);
    LeftText(token, spec);
    MeaningOfJoin(file, v);
    assert file == d + ["x"];
    if v == [""] {
      SamePlace(d, ["x"], e.0, e.1);
    } else if v[0] == "" {
      assert (d[..|d| - e.0] + e.1)[0] == name;
    } else {
      SamePlace(d, v, e.0, e.1);
    }
  }

  function Told(token: string, spec: string): Option<string> {
    var v, tail := Left(token, spec), Effect(0, [], Split(spec, '/')).1;
    if |v| > 1 && v[0] == "" then Some(v[1]) else if tail != [] then Some(tail[0]) else None
  }

  lemma ClimbingIsLostSomewhere(served: string -> bool, token: string, spec: string)
    requires IsRelative(spec) && !Stays(0, Split(spec, '/'))
    ensures exists file: Path | NoDots(Dir(file)) :: !Recovers(served, token, file, spec)
  {
    hide *;
    var n := |Split(spec, '/')| + 1;
    var a, b := Deep("a", n), Deep("b", n);
    PlainNames();
    DeepHasNoDots("a", n);
    DeepHasNoDots("b", n);
    if Recovers(served, token, a, spec) {
      ClimbTells(served, token, "a", spec);
      if Recovers(served, token, b, spec) {
        ClimbTells(served, token, "b", spec);
        assert false;
      }
    }
  }

  /** Exactly which specifiers are recovered in every file. */
  lemma RecoveredExactly(served: string -> bool, token: string, spec: string)
    requires IsRelative(spec)
    ensures IsRecoverable(served, spec) <==>
      forall file: Path | NoDots(Dir(file)) :: Recovers(served, token, file, spec)
  {
    hide IsRelative, Recovers, Stays, Split, Normalize, HasScheme;
    if IsRecoverable(served, spec) {
      forall file: Path | NoDots(Dir(file))
        ensures Recovers(served, token, file, spec)
      {
        WreckageIsRecoverable(served, token, file, spec);
      }
    } else if Stays(0, Split(spec, '/')) {
      OthersAreLost(served, token, spec);
      assert NoDots(Dir(["x"]));
    } else {
      ClimbingIsLostSomewhere(served, token, spec);
    }
  }

  // --- a site's own paths under "/p/" ---

  lemma OwnPathIs(file: Path, n: Path)
    requires n != [] && NoDots(n) && forall s | s in n :: IsSegment(s)
    ensures var path := "/p/" + Join(n, "/");
      AfterPrefix(path) == Join(n, "/") && Meaning(file, path) == Here(["p"] + n)
  {
    hide Normalize, Split, IsSegment, Join;
    var path := "/p/" + Join(n, "/");
    assert path[3..] == Join(n, "/");
    JoinMore("p", n, "/");
    assert path[1..] == "p" + ("/" + Join(n, "/")) == Join(["p"] + n, "/");
    assert path[0] == '/' && path[1] == 'p' && "//"[1] == '/';
    assert !HasScheme(path) by { assert !IsLetter('/'); }
    PIsSegment();
    SplitJoin(["p"] + n);
    NormalizePlain([], ["p"] + n, []);
    assert ["p"] + n + [] == ["p"] + n == [] + (["p"] + n);
    LastKept(["p"] + n);
  }

  /** A module that asks for a path its own site keeps under "/p/" is understood only from
      a file that lies in /p itself, where the text after the prefix means the same. */
  lemma OwnPathsExactly(file: Path, n: Path)
    requires NoDots(Dir(file)) && n != [] && NoDots(n) && forall s | s in n :: IsSegment(s)
    ensures var path := "/p/" + Join(n, "/");
      Meaning(file, AfterPrefix(path)) == Meaning(file, path) <==>
        if n[0] == "" then n == [""] && file == ["p", ""] else Dir(file) == ["p"] && !HasScheme(n[0])
  {
    hide Normalize, Split, IsSegment, Join, HasScheme, Meaning, Dir;
    OwnPathIs(file, n);
    MeaningOfJoin(file, n);
    if n[0] != "" {
      SameFront(Dir(file), ["p"], n);
    } else if n == [""] {
      assert ["p"] + n == ["p", ""];
    } else {
      assert |n[1..]| < |["p"] + n|;
    }
  }

  lemma SameFront(a: Path, b: Path, c: Path)
    ensures a + c == b + c <==> a == b
  {
    if a + c == b + c {
      assert (a + c)[..|a|] == a && (b + c)[..|b|] == b;
    }
  }
}
