// Map manager (map_manager.py): the map-name sanitiser and the way every
// CRUD operation derives its file paths from the sanitised key.  The file
// system is modelled as a map from path to file contents.

module MapManager {
  import opened Wrappers

  // ---------------------------------------------------------------------
  // Characters
  // ---------------------------------------------------------------------

  predicate IsDigit(c: char) { '0' <= c <= '9' }
  predicate IsLowerLetter(c: char) { 'a' <= c <= 'z' }
  predicate IsUpperLetter(c: char) { 'A' <= c <= 'Z' }

  /** `str.isalnum` restricted to ASCII. */
  predicate IsAlnum(c: char) { IsDigit(c) || IsLowerLetter(c) || IsUpperLetter(c) }

  /** The characters the comprehension keeps: alphanumerics, `-`, `_` and space. */
  predicate Kept(c: char) { IsAlnum(c) || c == '-' || c == '_' || c == ' ' }

  /** The characters a sanitised name may contain. */
  predicate SafeChar(c: char) { IsDigit(c) || IsLowerLetter(c) || c == '-' || c == '_' }

  predicate Safe(s: string) { forall i :: 0 <= i < |s| ==> SafeChar(s[i]) }

  function LowerChar(c: char): (d: char)
    ensures IsUpperLetter(c) ==> IsLowerLetter(d) && d as int == c as int + 32
    ensures !IsUpperLetter(c) ==> d == c
  {
    if IsUpperLetter(c) then (c as int + 32) as char else c
  }

  // ---------------------------------------------------------------------
  // The four stages of `_sanitize`
  // ---------------------------------------------------------------------

  /** Drop every character that is not kept, preserving order. */
  function Filter(s: string): (r: string)
    ensures |r| <= |s|
    ensures forall i :: 0 <= i < |r| ==> Kept(r[i])
  {
    if s == [] then []
    else if Kept(s[0]) then [s[0]] + Filter(s[1..])
    else Filter(s[1..])
  }

  function StripLeft(s: string): (r: string)
    ensures r == [] || r[0] != ' '
    ensures |r| <= |s| && r == s[|s| - |r|..]
    ensures forall i :: 0 <= i < |s| - |r| ==> s[i] == ' '
  {
    if s != [] && s[0] == ' ' then StripLeft(s[1..]) else s
  }

  function StripRight(s: string): (r: string)
    ensures r == [] || r[|r| - 1] != ' '
    ensures |r| <= |s| && r == s[..|r|]
    ensures forall i :: |r| <= i < |s| ==> s[i] == ' '
  {
    if s != [] && s[|s| - 1] == ' ' then StripRight(s[..|s| - 1]) else s
  }

  /** `str.strip()`: after filtering, space is the only whitespace left. */
  function Strip(s: string): string { StripRight(StripLeft(s)) }

  function Underscore(s: string): (r: string)
    ensures |r| == |s|
    ensures forall i :: 0 <= i < |s| ==> r[i] == (if s[i] == ' ' then '_' else s[i])
  {
    seq(|s|, i requires 0 <= i < |s| => if s[i] == ' ' then '_' else s[i])
  }

  function Lower(s: string): (r: string)
    ensures |r| == |s|
    ensures forall i :: 0 <= i < |s| ==> r[i] == LowerChar(s[i])
  {
    seq(|s|, i requires 0 <= i < |s| => LowerChar(s[i]))
  }

  const Fallback: string := "unnamed"

  /** `MapManager._sanitize`: filter, strip, spaces to underscores, lower case,
      and "unnamed" when nothing is left. */
  function Sanitize(name: string): (r: string)
    ensures r != []
    ensures Safe(r)
  {
    var t := Lower(Underscore(Strip(Filter(name))));
    StrippedHasNoOuterSpace(Filter(name));
    assert Safe(t) by {
      forall i | 0 <= i < |t| ensures SafeChar(t[i]) {
        var s := Strip(Filter(name));
        assert s[i] in Filter(name) by { StripInside(Filter(name), i); }
      }
    }
    if t == [] then Fallback else t
  }

  // ---------------------------------------------------------------------
  // Lemmas about the stages
  // ---------------------------------------------------------------------

  lemma StrippedHasNoOuterSpace(s: string)
    ensures var t := Strip(s); t == [] || (t[0] != ' ' && t[|t| - 1] != ' ')
  {
    var l := StripLeft(s);
    var t := StripRight(l);
    if t != [] {
      assert t == l[..|t|];
      assert t[0] == l[0];
    }
  }

  lemma StripInside(s: string, i: int)
    requires 0 <= i < |Strip(s)|
    ensures Strip(s)[i] in s
  {
    var l := StripLeft(s);
    assert Strip(s)[i] == l[i];
    assert l[i] == s[|s| - |l| + i];
  }

  lemma {:induction false} FilterAppend(a: string, b: string)
    ensures Filter(a + b) == Filter(a) + Filter(b)
  {
    if a == [] {
      assert a + b == b;
    } else {
      assert (a + b)[1..] == a[1..] + b;
      FilterAppend(a[1..], b);
    }
  }

  lemma {:induction false} FilterKeepsKept(s: string)
    requires forall i :: 0 <= i < |s| ==> Kept(s[i])
    ensures Filter(s) == s
  {
    if s != [] {
      FilterKeepsKept(s[1..]);
    }
  }

  lemma {:induction false} FilterLower(s: string)
    ensures Filter(Lower(s)) == Lower(Filter(s))
  {
    if s != [] {
      assert Lower(s)[1..] == Lower(s[1..]);
      FilterLower(s[1..]);
      if Kept(s[0]) {
        assert Lower(Filter(s)) == [LowerChar(s[0])] + Lower(Filter(s[1..]));
      }
    }
  }

  lemma {:induction false} StripLeftLower(s: string)
    ensures StripLeft(Lower(s)) == Lower(StripLeft(s))
  {
    if s != [] && s[0] == ' ' {
      assert Lower(s)[1..] == Lower(s[1..]);
      StripLeftLower(s[1..]);
    }
  }

  lemma {:induction false} StripRightLower(s: string)
    ensures StripRight(Lower(s)) == Lower(StripRight(s))
  {
    if s != [] && s[|s| - 1] == ' ' {
      assert Lower(s)[..|s| - 1] == Lower(s[..|s| - 1]);
      StripRightLower(s[..|s| - 1]);
    }
  }

  lemma {:induction false} StripLeftSnocSpace(s: string)
    ensures StripLeft(s + [' ']) == if StripLeft(s) == [] then [] else StripLeft(s) + [' ']
  {
    if s == [] {
    } else if s[0] == ' ' {
      assert (s + [' '])[1..] == s[1..] + [' '];
      StripLeftSnocSpace(s[1..]);
    }
  }

  lemma StripRightSnocSpace(s: string)
    ensures StripRight(s + [' ']) == StripRight(s)
  {
    assert (s + [' '])[..|s|] == s;
  }

  lemma StripLeftConsSpace(s: string)
    ensures StripLeft([' '] + s) == StripLeft(s)
  {
    assert ([' '] + s)[1..] == s;
  }

  // ---------------------------------------------------------------------
  // Properties of `_sanitize`
  // ---------------------------------------------------------------------

  /** A nonempty name made only of lower-case alphanumerics, `-` and `_`
      is its own sanitised form. */
  lemma SanitizeFixedPoint(name: string)
    requires name != [] && Safe(name)
    ensures Sanitize(name) == name
  {
    assert forall i :: 0 <= i < |name| ==> Kept(name[i]) && name[i] != ' ' by {
      forall i | 0 <= i < |name| ensures Kept(name[i]) && name[i] != ' ' {
        assert SafeChar(name[i]);
      }
    }
    FilterKeepsKept(name);
    assert StripLeft(name) == name by { assert name[0] != ' '; }
    assert StripRight(name) == name by { assert name[|name| - 1] != ' '; }
    UnderscoreWithoutSpace(name);
    LowerWithoutUpper(name);
  }

  lemma UnderscoreWithoutSpace(s: string)
    requires forall i :: 0 <= i < |s| ==> s[i] != ' '
    ensures Underscore(s) == s
  {
  }

  lemma LowerWithoutUpper(s: string)
    requires Safe(s)
    ensures Lower(s) == s
  {
  }

  lemma UnderscoreLower(s: string)
    ensures Underscore(Lower(s)) == Lower(Underscore(s))
  {
  }

  lemma LowerTwice(s: string)
    ensures Lower(Lower(s)) == Lower(s)
  {
  }

  /** Sanitising twice is sanitising once. */
  lemma SanitizeIdempotent(name: string)
    ensures Sanitize(Sanitize(name)) == Sanitize(name)
  {
    SanitizeFixedPoint(Sanitize(name));
  }

  /** A character outside the kept set is deleted wherever it occurs. */
  lemma SanitizeDropsUnkept(a: string, c: char, b: string)
    requires !Kept(c)
    ensures Sanitize(a + [c] + b) == Sanitize(a + b)
  {
    FilterAppend(a + [c], b);
    FilterAppend(a, [c]);
    FilterAppend(a, b);
    assert Filter([c]) == [];
    assert Filter(a) + [] == Filter(a);
  }

  /** A leading space is dropped. */
  lemma SanitizeLeadingSpace(name: string)
    ensures Sanitize([' '] + name) == Sanitize(name)
  {
    FilterAppend([' '], name);
    assert Filter([' ']) == [' '];
    StripLeftConsSpace(Filter(name));
  }

  /** A trailing space is dropped. */
  lemma SanitizeTrailingSpace(name: string)
    ensures Sanitize(name + [' ']) == Sanitize(name)
  {
    var f := Filter(name);
    FilterAppend(name, [' ']);
    assert Filter([' ']) == [' '];
    StripLeftSnocSpace(f);
    if StripLeft(f) != [] {
      StripRightSnocSpace(StripLeft(f));
    }
  }

  /** An interior space between two already-safe parts becomes `_`. */
  lemma SanitizeInteriorSpace(a: string, b: string)
    requires a != [] && Safe(a) && b != [] && Safe(b)
    ensures Sanitize(a + [' '] + b) == a + ['_'] + b
  {
    var s := a + [' '] + b;
    SpacedKept(a, b);
    FilterKeepsKept(s);
    assert StripLeft(s) == s by { assert s[0] == a[0]; }
    assert StripRight(s) == s by { assert s[|s| - 1] == b[|b| - 1]; }
    SpacedUnderscore(a, b);
    SpacedSafe(a, b);
    LowerWithoutUpper(a + ['_'] + b);
  }

  lemma SpacedKept(a: string, b: string)
    requires Safe(a) && Safe(b)
    ensures forall i :: 0 <= i < |a + [' '] + b| ==> Kept((a + [' '] + b)[i])
  {
    var s := a + [' '] + b;
    forall i | 0 <= i < |s| ensures Kept(s[i]) {
      if i < |a| { assert s[i] == a[i]; }
      else if i > |a| { assert s[i] == b[i - |a| - 1]; }
    }
  }

  lemma SpacedUnderscore(a: string, b: string)
    requires Safe(a) && Safe(b)
    ensures Underscore(a + [' '] + b) == a + ['_'] + b
  {
    var s, u := a + [' '] + b, a + ['_'] + b;
    forall i | 0 <= i < |s| ensures Underscore(s)[i] == u[i] {
      if i < |a| { assert s[i] == a[i] && u[i] == a[i]; }
      else if i > |a| { assert s[i] == b[i - |a| - 1] && u[i] == b[i - |a| - 1]; }
    }
  }

  lemma SpacedSafe(a: string, b: string)
    requires Safe(a) && Safe(b)
    ensures Safe(a + ['_'] + b)
  {
    var u := a + ['_'] + b;
    forall i | 0 <= i < |u| ensures SafeChar(u[i]) {
      if i < |a| { assert u[i] == a[i]; }
      else if i > |a| { assert u[i] == b[i - |a| - 1]; }
    }
  }

  /** Sanitising ignores case: a name and its lower-case form share a key. */
  lemma SanitizeIgnoresCase(name: string)
    ensures Sanitize(Lower(name)) == Sanitize(name)
  {
    var f := Filter(name);
    FilterLower(name);
    StripLeftLower(f);
    StripRightLower(StripLeft(f));
    var s := Strip(f);
    assert Strip(Filter(Lower(name))) == Lower(s);
    UnderscoreLower(s);
    LowerTwice(Underscore(s));
  }

  // ---------------------------------------------------------------------
  // Paths
  // ---------------------------------------------------------------------

  /** `os.path.join(dir, f)` for a relative file name `f`. */
  function Join(dir: string, f: string): (p: string)
    ensures |p| >= |f| && p[|p| - |f|..] == f
  {
    if dir == [] then f
    else if dir[|dir| - 1] == '/' then dir + f
    else dir + "/" + f
  }

  /** The three files a saved map may own, as the CRUD loops list them. */
  const Extensions: seq<string> := [".json", ".meta.json", ".png"]

  const GridFileIndex := 0
  const MetaFileIndex := 1

  /** The path of file `k` of the map called `name`. */
  function FileOf(dir: string, name: string, k: int): (p: string)
    requires 0 <= k < |Extensions|
  {
    Join(dir, Sanitize(name) + Extensions[k])
  }

  lemma JoinInjective(dir: string, f: string, g: string)
    requires Join(dir, f) == Join(dir, g)
    ensures f == g
  {
    var p := Join(dir, f);
    assert |f| == |g|;
    assert f == p[|p| - |f|..];
  }

  /** The index of the first `.` in `s`, or `|s|` if there is none. */
  function FirstDot(s: string): (n: nat)
    ensures n <= |s|
  {
    if s == [] || s[0] == '.' then 0 else 1 + FirstDot(s[1..])
  }

  /** A safe key has no `.`, so the extension starts at the first one. */
  lemma {:induction false} FirstDotAfterKey(k: string, ext: string)
    requires Safe(k) && ext != [] && ext[0] == '.'
    ensures FirstDot(k + ext) == |k|
  {
    if k != [] {
      assert (k + ext)[1..] == k[1..] + ext;
      FirstDotAfterKey(k[1..], ext);
    }
  }

  lemma KeyExtensionInjective(k1: string, k2: string, e1: int, e2: int)
    requires Safe(k1) && Safe(k2)
    requires 0 <= e1 < |Extensions| && 0 <= e2 < |Extensions|
    requires k1 + Extensions[e1] == k2 + Extensions[e2]
    ensures k1 == k2 && e1 == e2
  {
    var s := k1 + Extensions[e1];
    var t := k2 + Extensions[e2];
    FirstDotAfterKey(k1, Extensions[e1]);
    FirstDotAfterKey(k2, Extensions[e2]);
    assert k1 == s[..|k1|] && k2 == t[..|k2|];
    assert Extensions[e1] == s[|k1|..] && Extensions[e2] == t[|k2|..];
  }

  /** Two names address the same file exactly when their keys agree and the
      file is the same one of the three; files of different maps never
      coincide. */
  lemma SameFileIffSameKey(dir: string, a: string, b: string, i: int, j: int)
    requires 0 <= i < |Extensions| && 0 <= j < |Extensions|
    ensures FileOf(dir, a, i) == FileOf(dir, b, j) <==> Sanitize(a) == Sanitize(b) && i == j
  {
    if FileOf(dir, a, i) == FileOf(dir, b, j) {
      JoinInjective(dir, Sanitize(a) + Extensions[i], Sanitize(b) + Extensions[j]);
      KeyExtensionInjective(Sanitize(a), Sanitize(b), i, j);
    }
  }

  // ---------------------------------------------------------------------
  // The CRUD operations over a file store
  // ---------------------------------------------------------------------

  /** The metadata sidecar; the timestamp, statistics and room bounds are not
      modelled. */
  datatype Meta = Meta(name: string, filename: string)

  datatype File<G> = GridFile(grid: G) | MetaFile(meta: Meta) | OtherFile

  type Store<G> = map<string, File<G>>

  predicate IsFileOf(dir: string, name: string, p: string) {
    exists k :: 0 <= k < |Extensions| && p == FileOf(dir, name, k)
  }

  /** The files of a key are exactly its three extensions. */
  lemma FilesOfKey(dir: string, name: string)
    ensures forall p :: IsFileOf(dir, name, p) <==>
      p in {FileOf(dir, name, 0), FileOf(dir, name, 1), FileOf(dir, name, 2)}
    ensures forall k :: 0 <= k < |Extensions| ==>
      FileOf(dir, name, k) in {FileOf(dir, name, 0), FileOf(dir, name, 1), FileOf(dir, name, 2)}
  {
    forall k | 0 <= k < |Extensions|
      ensures FileOf(dir, name, k) in {FileOf(dir, name, 0), FileOf(dir, name, 1), FileOf(dir, name, 2)}
    {
      assert k == 0 || k == 1 || k == 2;
    }
    forall p | IsFileOf(dir, name, p)
      ensures p in {FileOf(dir, name, 0), FileOf(dir, name, 1), FileOf(dir, name, 2)}
    {
      var k :| 0 <= k < |Extensions| && p == FileOf(dir, name, k);
      assert k == 0 || k == 1 || k == 2;
    }
  }

  /** `MapManager.save`: write the grid and its sidecar under the key. */
  function Save<G>(fs: Store<G>, dir: string, grid: G, name: string): (r: (Store<G>, Meta))
    ensures r.1.name == name
    ensures r.1.filename == Sanitize(name) + ".json"
    ensures forall p :: p in fs && !IsFileOf(dir, name, p) ==> p in r.0 && r.0[p] == fs[p]
  {
    var key := Sanitize(name);
    var meta := Meta(name, key + ".json");
    (fs[FileOf(dir, name, GridFileIndex) := GridFile(grid)]
       [FileOf(dir, name, MetaFileIndex) := MetaFile(meta)], meta)
  }

  /** `MapManager.load`: the grid stored under the key, if any. */
  function Load<G>(fs: Store<G>, dir: string, name: string): (r: Option<G>)
    ensures r.Some? ==> FileOf(dir, name, GridFileIndex) in fs
  {
    var p := FileOf(dir, name, GridFileIndex);
    if p in fs && fs[p].GridFile? then Some(fs[p].grid) else None
  }

  /** `MapManager.exists`. */
  function Exists<G>(fs: Store<G>, dir: string, name: string): (e: bool)
    ensures Load(fs, dir, name).Some? ==> e
  {
    FileOf(dir, name, GridFileIndex) in fs
  }

  /** `MapManager.delete`: remove the three files; report whether any existed. */
  function Delete<G>(fs: Store<G>, dir: string, name: string): (r: (Store<G>, bool))
    ensures r.1 <==> exists k :: 0 <= k < |Extensions| && FileOf(dir, name, k) in fs
    ensures forall k :: 0 <= k < |Extensions| ==> FileOf(dir, name, k) !in r.0
    ensures forall p :: p in r.0 <==> p in fs && !IsFileOf(dir, name, p)
    ensures forall p :: p in r.0 ==> r.0[p] == fs[p]
  {
    var f0, f1, f2 := FileOf(dir, name, 0), FileOf(dir, name, 1), FileOf(dir, name, 2);
    FilesOfKey(dir, name);
    (RemoveAll(fs, {f0, f1, f2}), f0 in fs || f1 in fs || f2 in fs)
  }

  /** Every path of the store except those in `gone`, with their files. */
  function RemoveAll<G>(fs: Store<G>, gone: set<string>): (r: Store<G>)
    ensures forall p :: p in r <==> p in fs && p !in gone
    ensures forall p :: p in r ==> r[p] == fs[p]
  {
    fs - gone
  }

  /** `os.rename`, which replaces an existing target. */
  function Move<G>(fs: Store<G>, src: string, dst: string): Store<G> {
    if src in fs then (fs - {src})[dst := fs[src]] else fs
  }

  /** The loop of `MapManager.rename` over the extensions from `k` on. */
  function MoveFrom<G>(fs: Store<G>, dir: string, oldName: string, newName: string, k: nat): Store<G>
    requires k <= |Extensions|
    decreases |Extensions| - k
  {
    if k == |Extensions| then fs
    else MoveFrom(Move(fs, FileOf(dir, oldName, k), FileOf(dir, newName, k)), dir, oldName, newName, k + 1)
  }

  /** `MapManager.rename`: move the three files, then rewrite the sidecar's
      name and file name. */
  function Rename<G>(fs: Store<G>, dir: string, oldName: string, newName: string): (r: Store<G>)
    ensures forall p :: !IsFileOf(dir, oldName, p) && !IsFileOf(dir, newName, p) ==>
      (p in r <==> p in fs) && (p in fs ==> r[p] == fs[p])
  {
    MoveFromFrame(fs, dir, oldName, newName);
    var moved := MoveFrom(fs, dir, oldName, newName, 0);
    var mp := FileOf(dir, newName, MetaFileIndex);
    if mp in moved && moved[mp].MetaFile? then
      moved[mp := MetaFile(Meta(newName, Sanitize(newName) + ".json"))]
    else moved
  }

  // ---------------------------------------------------------------------
  // Properties of the CRUD operations
  // ---------------------------------------------------------------------

  lemma GridAndMetaDiffer(dir: string, a: string, b: string)
    ensures FileOf(dir, a, GridFileIndex) != FileOf(dir, b, MetaFileIndex)
  {
    SameFileIffSameKey(dir, a, b, GridFileIndex, MetaFileIndex);
  }

  /** Loading by any name with the same key returns what was saved. */
  lemma SaveThenLoad<G>(fs: Store<G>, dir: string, grid: G, name: string, alias: string)
    requires Sanitize(alias) == Sanitize(name)
    ensures Load(Save(fs, dir, grid, name).0, dir, alias) == Some(grid)
    ensures Exists(Save(fs, dir, grid, name).0, dir, alias)
  {
    GridAndMetaDiffer(dir, name, name);
  }

  /** Saving one map does not disturb a map with a different key. */
  lemma SaveKeepsOthers<G>(fs: Store<G>, dir: string, grid: G, name: string, other: string)
    requires Sanitize(other) != Sanitize(name)
    ensures Load(Save(fs, dir, grid, name).0, dir, other) == Load(fs, dir, other)
    ensures Exists(Save(fs, dir, grid, name).0, dir, other) == Exists(fs, dir, other)
  {
    SameFileIffSameKey(dir, other, name, GridFileIndex, GridFileIndex);
    SameFileIffSameKey(dir, other, name, GridFileIndex, MetaFileIndex);
  }

  /** After a delete, the map no longer exists and cannot be loaded under any
      name with the same key. */
  lemma DeleteThenGone<G>(fs: Store<G>, dir: string, name: string, alias: string)
    requires Sanitize(alias) == Sanitize(name)
    ensures !Exists(Delete(fs, dir, name).0, dir, alias)
    ensures Load(Delete(fs, dir, name).0, dir, alias) == None
  {
  }

  /** A delete reports success for a map that exists. */
  lemma DeleteReportsExisting<G>(fs: Store<G>, dir: string, name: string)
    requires Exists(fs, dir, name)
    ensures Delete(fs, dir, name).1
  {
    assert FileOf(dir, name, GridFileIndex) in fs;
  }

  lemma MoveFacts<G>(fs: Store<G>, src: string, dst: string, p: string)
    ensures p == dst ==> (p in Move(fs, src, dst) <==> p in fs || src in fs)
    ensures p == dst && src in fs ==> Move(fs, src, dst)[p] == fs[src]
    ensures p == dst && src !in fs && p in fs ==> Move(fs, src, dst)[p] == fs[p]
    ensures p != dst && p != src ==> (p in Move(fs, src, dst) <==> p in fs)
    ensures p != dst && p != src && p in fs ==> Move(fs, src, dst)[p] == fs[p]
    ensures p == src && p != dst && src in fs ==> p !in Move(fs, src, dst)
  {
  }

  /** The files `MoveFrom` has not reached yet are untouched: paths outside
      both maps' files from `k` on keep their contents. */
  lemma {:induction false} MoveFromKeeps<G>(fs: Store<G>, dir: string, o: string, n: string, k: nat, p: string)
    requires k <= |Extensions|
    requires forall j :: k <= j < |Extensions| ==> p != FileOf(dir, o, j) && p != FileOf(dir, n, j)
    ensures p in MoveFrom(fs, dir, o, n, k) <==> p in fs
    ensures p in fs ==> MoveFrom(fs, dir, o, n, k)[p] == fs[p]
    decreases |Extensions| - k
  {
    if k < |Extensions| {
      var next := Move(fs, FileOf(dir, o, k), FileOf(dir, n, k));
      MoveFacts(fs, FileOf(dir, o, k), FileOf(dir, n, k), p);
      MoveFromKeeps(next, dir, o, n, k + 1, p);
    }
  }

  /** The move loop leaves every path that is not a file of either map as it was. */
  lemma MoveFromFrame<G>(fs: Store<G>, dir: string, o: string, n: string)
    ensures forall p :: !IsFileOf(dir, o, p) && !IsFileOf(dir, n, p) ==>
      var r := MoveFrom(fs, dir, o, n, 0);
      (p in r <==> p in fs) && (p in fs ==> r[p] == fs[p])
  {
    forall p | !IsFileOf(dir, o, p) && !IsFileOf(dir, n, p)
      ensures var r := MoveFrom(fs, dir, o, n, 0); (p in r <==> p in fs) && (p in fs ==> r[p] == fs[p])
    {
      MoveFromKeeps(fs, dir, o, n, 0, p);
    }
  }

  /** The file at the new path for extension `i` after the move loop. */
  lemma {:induction false} MoveFromTarget<G>(fs: Store<G>, dir: string, o: string, n: string, k: nat, i: int)
    requires k <= i < |Extensions|
    requires Safe(Sanitize(o)) && Sanitize(o) != Sanitize(n)
    ensures var src := FileOf(dir, o, i); var dst := FileOf(dir, n, i);
      var r := MoveFrom(fs, dir, o, n, k);
      (dst in r <==> src in fs || dst in fs) &&
      (src in fs ==> r[dst] == fs[src]) &&
      (src !in fs && dst in fs ==> r[dst] == fs[dst]) &&
      src !in r
    decreases |Extensions| - k
  {
    var src := FileOf(dir, o, i);
    var dst := FileOf(dir, n, i);
    var s := FileOf(dir, o, k);
    var d := FileOf(dir, n, k);
    var next := Move(fs, s, d);
    SameFileIffSameKey(dir, o, n, i, i);
    if k == i {
      MoveFacts(fs, s, d, dst);
      MoveFacts(fs, s, d, src);
      forall j | k + 1 <= j < |Extensions|
        ensures dst != FileOf(dir, o, j) && dst != FileOf(dir, n, j)
        ensures src != FileOf(dir, o, j) && src != FileOf(dir, n, j)
      {
        SameFileIffSameKey(dir, n, o, i, j);
        SameFileIffSameKey(dir, n, n, i, j);
        SameFileIffSameKey(dir, o, o, i, j);
        SameFileIffSameKey(dir, o, n, i, j);
      }
      MoveFromKeeps(next, dir, o, n, k + 1, dst);
      MoveFromKeeps(next, dir, o, n, k + 1, src);
    } else {
      SameFileIffSameKey(dir, o, o, k, i);
      SameFileIffSameKey(dir, o, n, k, i);
      SameFileIffSameKey(dir, n, o, k, i);
      SameFileIffSameKey(dir, n, n, k, i);
      MoveFacts(fs, s, d, dst);
      MoveFacts(fs, s, d, src);
      MoveFromTarget(next, dir, o, n, k + 1, i);
    }
  }

  /** Rename rewrites nothing after the move loop except the new sidecar. */
  lemma RenameRewritesOnlyMeta<G>(fs: Store<G>, dir: string, oldName: string, newName: string, p: string)
    requires p != FileOf(dir, newName, MetaFileIndex)
    ensures var moved := MoveFrom(fs, dir, oldName, newName, 0);
      var r := Rename(fs, dir, oldName, newName);
      (p in r <==> p in moved) && (p in r ==> r[p] == moved[p])
  {
    var moved := MoveFrom(fs, dir, oldName, newName, 0);
    var mp := FileOf(dir, newName, MetaFileIndex);
    var meta := MetaFile(Meta(newName, Sanitize(newName) + ".json"));
    assert Rename(fs, dir, oldName, newName) ==
      if mp in moved && moved[mp].MetaFile? then moved[mp := meta] else moved;
  }

  /** After a rename to a different key, the new name loads what the old name
      loaded (or what was already there when the old map had no grid file),
      and the old name no longer exists. */
  lemma RenameMovesGrid<G>(fs: Store<G>, dir: string, oldName: string, newName: string)
    requires Sanitize(oldName) != Sanitize(newName)
    ensures var src := FileOf(dir, oldName, GridFileIndex);
      Load(Rename(fs, dir, oldName, newName), dir, newName) ==
        (if src in fs then Load(fs, dir, oldName) else Load(fs, dir, newName))
    ensures !Exists(Rename(fs, dir, oldName, newName), dir, oldName)
  {
    var src := FileOf(dir, oldName, GridFileIndex);
    var dst := FileOf(dir, newName, GridFileIndex);
    MoveFromTarget(fs, dir, oldName, newName, 0, GridFileIndex);
    GridAndMetaDiffer(dir, newName, newName);
    GridAndMetaDiffer(dir, oldName, newName);
    RenameRewritesOnlyMeta(fs, dir, oldName, newName, dst);
    RenameRewritesOnlyMeta(fs, dir, oldName, newName, src);
  }

  /** After a rename, the sidecar under the new key, if the move left one
      there, records the new name and the new grid file name. */
  lemma RenameUpdatesMeta<G>(fs: Store<G>, dir: string, oldName: string, newName: string)
    ensures var mp := FileOf(dir, newName, MetaFileIndex);
      var r := Rename(fs, dir, oldName, newName);
      mp in r && r[mp].MetaFile? ==> r[mp].meta == Meta(newName, Sanitize(newName) + ".json")
  {
  }
}
