/** Lexical path safety, and how the operating system walks a path component by component. */
module Paths {
  import opened Bytes

  const DOTDOT: bytes := [DOT, DOT]

  /** A place in the directory tree: the components below the root. */
  type Location = seq<bytes>

  ghost predicate SafePath(path: bytes) {
    && path != []
    && path[0] != SLASH
    && DOTDOT !in Split(path, SLASH)
  }

  /** The one-pass scan of installer.c; `path` holds the characters before the terminator. */
  method TarPathIsSafe(path: bytes) returns (safe: bool)
    ensures safe <==> SafePath(path)
  {
    if path == [] || path[0] == SLASH {
      return false;
    }
    var componentStart, i := 0, 0;
    ghost var done: seq<bytes> := [];
    ScanStarts(path, SLASH);
    while true
      invariant Scanned(path, SLASH, done, componentStart, i)
      invariant DOTDOT !in done
      decreases |path| - i
    {
      assert componentStart <= i <= |path|;
      hide Scanned, Split;
      if i == |path| || path[i] == SLASH {
        ScanCloses(path, SLASH, done, componentStart, i);
        if i - componentStart == 2 && path[componentStart] == DOT && path[componentStart + 1] == DOT {
          assert path[componentStart..i] == DOTDOT;
          return false;
        }
        assert path[componentStart..i] != DOTDOT;
        if i == |path| {
          return true;
        }
        ScanStep(path, SLASH, done, componentStart, i);
        done := done + [path[componentStart..i]];
        componentStart := i + 1;
      } else {
        ScanStep(path, SLASH, done, componentStart, i);
      }
      i := i + 1;
    }
  }

  // ---- The same rule, byte by byte ----

  /** At `i` stand two dots that are a whole component. */
  ghost predicate DotDotAt(path: bytes, i: nat) {
    && i + 2 <= |path| && path[i] == 46 && path[i + 1] == 46
    && (i == 0 || path[i - 1] == 47)
    && (i + 2 == |path| || path[i + 2] == 47)
  }

  ghost predicate PlainPath(path: bytes) {
    path != [] && path[0] != 47 && forall i: nat :: !DotDotAt(path, i)
  }

  /** Where the k-th component of the first `n` bytes stands. */
  lemma {:induction false} PartPlace(s: bytes, n: nat, k: nat, sep: byte) returns (a: nat, b: nat)
    requires n <= |s| && k < |SplitRange(s, 0, n, sep)|
    ensures a <= b <= n && s[a..b] == SplitRange(s, 0, n, sep)[k]
    ensures a == 0 || s[a - 1] == sep
    ensures k < |SplitRange(s, 0, n, sep)| - 1 ==> b < n && s[b] == sep
    ensures k == |SplitRange(s, 0, n, sep)| - 1 ==> b == n
  {
    if n == 0 {
      a, b := 0, 0;
    } else {
      var init, c := SplitRange(s, 0, n - 1, sep), s[n - 1];
      var parts := SplitRange(s, 0, n, sep);
      assert parts == Extend(init, c, sep);
      hide SplitRange;
      if c == sep {
        assert parts == init + [[]];
        if k == |init| {
          a, b := n, n;
        } else {
          a, b := PartPlace(s, n - 1, k, sep);
          assert parts[k] == init[k];
        }
      } else {
        a, b := PartPlace(s, n - 1, k, sep);
        if k < |init| - 1 {
          assert parts[k] == init[k];
        } else {
          assert parts[k] == init[k] + [c];
          b := n;
          assert s[a..n] == s[a..n - 1] + [c];
        }
      }
    }
  }

  lemma TwoDots(path: bytes, i: nat)
    requires i + 2 <= |path| && path[i] == 46 && path[i + 1] == 46
    ensures SplitRange(path, i, i + 2, SLASH) == [DOTDOT]
  {
    hide SplitRange;
    SplitRangeAgrees(path, i, [46, 46], 0, 2, SLASH);
    SplitWithoutSeparator([46, 46], 2, SLASH);
    assert [46, 46][..2] == DOTDOT;
  }

  lemma DotDotIsComponent(path: bytes, i: nat)
    requires DotDotAt(path, i)
    ensures DOTDOT in Split(path, SLASH)
  {
    TwoDots(path, i);
    assert [DOTDOT][0] == DOTDOT;
    if i + 2 < |path| {
      SplitAtSeparator(path, i, i + 2, |path|, SLASH);
    }
    var tail := SplitRange(path, i, |path|, SLASH);
    assert tail[0] == DOTDOT;
    if i > 0 {
      SplitAtSeparator(path, 0, i - 1, |path|, SLASH);
      assert Split(path, SLASH)[|SplitRange(path, 0, i - 1, SLASH)|] == DOTDOT;
    }
  }

  /** The path scan, without splitting: not empty, no leading separator, and nowhere two dots that are a
      whole component. */
  lemma SafePathIsExact(path: bytes)
    ensures SafePath(path) <==> PlainPath(path)
  {
    if i: nat :| DotDotAt(path, i) {
      DotDotIsComponent(path, i);
    }
    if DOTDOT in Split(path, SLASH) {
      var k :| 0 <= k < |Split(path, SLASH)| && Split(path, SLASH)[k] == DOTDOT;
      var a, b := PartPlace(path, |path|, k, SLASH);
      assert path[a] == path[a..b][0] && path[a + 1] == path[a..b][1];
      assert DotDotAt(path, a);
    }
  }

  // ---- Walking ----

  /** One component of a walk: empty and "." components stay, ".." goes up, anything else goes down. */
  function Enter(at: Location, component: bytes): Location {
    if component == [] || component == [DOT] then at
    else if component == DOTDOT then (if at == [] then [] else at[..|at| - 1])
    else at + [component]
  }

  function Walk(base: Location, components: seq<bytes>): Location {
    if components == [] then base
    else Enter(Walk(base, components[..|components| - 1]), components[|components| - 1])
  }

  /** Where an absolute path text leads. */
  function Resolve(path: bytes): Location {
    Walk([], Split(path, SLASH))
  }

  /** `dir/rel`, the text the installer formats. */
  function Under(dir: bytes, rel: bytes): bytes {
    dir + [SLASH] + rel
  }

  lemma {:induction false} WalkConcat(base: Location, xs: seq<bytes>, ys: seq<bytes>)
    ensures Walk(base, xs + ys) == Walk(Walk(base, xs), ys)
    decreases |ys|
  {
    if ys == [] {
      assert xs + ys == xs;
    } else {
      WalkConcat(base, xs, ys[..|ys| - 1]);
      assert (xs + ys)[..|xs + ys| - 1] == xs + ys[..|ys| - 1];
    }
  }

  lemma ResolveUnder(dir: bytes, rel: bytes)
    ensures Resolve(Under(dir, rel)) == Walk(Resolve(dir), Split(rel, SLASH))
  {
    SplitConcat(dir, rel, SLASH);
    WalkConcat([], Split(dir, SLASH), Split(rel, SLASH));
  }

  /** At no intermediate component does the walk leave `base`. */
  ghost predicate StaysInside(base: Location, components: seq<bytes>) {
    forall k :: 0 <= k <= |components| ==> base <= Walk(base, components[..k])
  }

  lemma {:induction false} WithoutDotDotStaysInside(base: Location, components: seq<bytes>)
    requires DOTDOT !in components
    ensures StaysInside(base, components)
  {
    if components != [] {
      var init := components[..|components| - 1];
      WithoutDotDotStaysInside(base, init);
      assert init[..|init|] == init;
      forall k | 0 <= k <= |components|
        ensures base <= Walk(base, components[..k])
      {
        if k <= |init| {
          assert components[..k] == init[..k];
        } else {
          assert components[..k] == components;
        }
      }
    }
  }

  /** A safe path, and each of its prefixes that ends at a separator, never leaves any base. */
  lemma SafePathStaysInside(base: Location, path: bytes, i: nat)
    requires SafePath(path)
    requires i == |path| || (i < |path| && path[i] == SLASH)
    ensures StaysInside(base, Split(path[..i], SLASH))
  {
    hide SplitRange, StaysInside;
    SplitRangeAgrees(path, 0, path[..i], 0, i, SLASH);
    if DOTDOT in Split(path[..i], SLASH) {
      ComponentOfPrefix(path, i, DOTDOT, SLASH);
    }
    hide Split;
    WithoutDotDotStaysInside(base, Split(path[..i], SLASH));
  }

  // ---- Normalised paths ----

  /** No empty, "." or ".." component: each component names something one level down. */
  ghost predicate Normalised(path: bytes) {
    forall c <- Split(path, SLASH) :: ProperName(c)
  }

  predicate ProperName(c: bytes) {
    c != [] && c != [DOT] && c != DOTDOT
  }

  lemma NormalisedIsSafe(path: bytes)
    requires Normalised(path)
    ensures SafePath(path)
  {
    assert Split([], SLASH)[0] == [] && !ProperName([]);
    if path != [] && path[0] == SLASH {
      SplitAtSeparator(path, 0, 0, |path|, SLASH);
      assert false;
    }
  }

  lemma {:induction false} NormalisedWalk(base: Location, components: seq<bytes>)
    requires forall c <- components :: ProperName(c)
    ensures Walk(base, components) == base + components
  {
    if components != [] {
      var init, last := components[..|components| - 1], components[|components| - 1];
      assert components == init + [last];
      assert ProperName(last) by { assert last in components; }
      assert forall c <- init :: c in components;
      NormalisedWalk(base, init);
      assert base + components == base + init + [last];
    }
  }
}
