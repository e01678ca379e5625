/** Bytes, C strings, machine words and text splitting: the vocabulary every other module uses. */
module Bytes {

  type byte = b: int | 0 <= b < 256
  type bytes = seq<byte>

  const DIGEST_SIZE: nat := 32

  /** The result of SHA-256, which is left uninterpreted: it is a parameter wherever it is used. */
  type Digest = d: bytes | |d| == DIGEST_SIZE witness Zeros(DIGEST_SIZE)

  datatype Option<+T> = None | Some(value: T)

  /** One more than the largest value of a 64-bit `size_t`. */
  const SIZE_MODULUS: nat := 0x1_0000_0000_0000_0000

  /** One more than the largest value of a 32-bit `unsigned int`. */
  const UINT_MODULUS: nat := 0x1_0000_0000

  const NUL: byte := 0
  const SPACE: byte := 32
  const DOT: byte := 46
  const SLASH: byte := 47

  /** The bytes of an ASCII literal. */
  function Ascii(text: string): bytes {
    seq(|text|, i requires 0 <= i < |text| => if text[i] < 128 as char then text[i] as int else 63)
  }

  function Zeros(n: nat): bytes {
    seq(n, _ => 0)
  }

  predicate IsPrintable(c: byte) {
    32 <= c <= 126
  }

  predicate Printable(s: bytes) {
    forall i | 0 <= i < |s| :: IsPrintable(s[i])
  }

  /** A lower-case hexadecimal digit. */
  function HexDigit(n: nat): byte
    requires n < 16
  {
    if n < 10 then 48 + n else 87 + n
  }

  predicate EndsWith(s: bytes, suffix: bytes) {
    |suffix| <= |s| && s[|s| - |suffix|..] == suffix
  }

  /** `memcpy` of `data` to offset `at`. */
  method Store(buf: array<byte>, at: nat, data: bytes)
    requires at + |data| <= buf.Length
    modifies buf
    ensures buf[..at + |data|] == old(buf[..at]) + data
  {
    var i := 0;
    while i < |data|
      invariant i <= |data|
      invariant buf[..at + i] == old(buf[..at]) + data[..i]
    {
      buf[at + i] := data[i];
      i := i + 1;
    }
    assert data[..i] == data;
  }

  // ---- C strings ----

  /** What `strlen`, `strcmp` and friends see of a buffer: the bytes before the first NUL. */
  function CString(s: bytes): bytes {
    if s == [] || s[0] == NUL then [] else [s[0]] + CString(s[1..])
  }

  lemma {:induction false} CStringIsPrefix(s: bytes)
    ensures |CString(s)| <= |s|
    ensures CString(s) == s[..|CString(s)|]
    ensures NUL !in CString(s)
    ensures |CString(s)| < |s| ==> s[|CString(s)|] == NUL
  {
    if s != [] && s[0] != NUL {
      CStringIsPrefix(s[1..]);
    }
  }

  lemma {:induction false} CStringStops(s: bytes, rest: bytes)
    requires NUL !in s
    requires rest == [] || rest[0] == NUL
    ensures CString(s + rest) == s
  {
    if s == [] {
      assert s + rest == rest;
    } else {
      assert (s + rest)[1..] == s[1..] + rest;
      CStringStops(s[1..], rest);
    }
  }

  lemma CStringWhole(s: bytes)
    requires NUL !in s
    ensures CString(s) == s
  {
    CStringStops(s, []);
    assert s + [] == s;
  }

  /** The bounded scan for a terminator that the C code writes out by hand. */
  method BoundedStrlen(s: bytes) returns (n: nat)
    ensures n <= |s| && s[..n] == CString(s)
  {
    n := 0;
    while n < |s| && s[n] != NUL
      invariant n <= |s|
      invariant NUL !in s[..n]
    {
      n := n + 1;
    }
    CStringStops(s[..n], s[n..]);
    assert s[..n] + s[n..] == s;
  }

  // ---- Splitting at a separator byte ----

  /** The components of `s` between occurrences of `sep`; there is always at least one. */
  function Split(s: bytes, sep: byte): seq<bytes> {
    SplitRange(s, 0, |s|, sep)
  }

  /** The components of `s[lo..hi]`. */
  function SplitRange(s: bytes, lo: nat, hi: nat, sep: byte): (parts: seq<bytes>)
    requires lo <= hi <= |s|
    ensures |parts| >= 1
  {
    if lo == hi then [[]] else Extend(SplitRange(s, lo, hi - 1, sep), s[hi - 1], sep)
  }

  /** The components after one more byte: a separator opens a new one, any other byte extends the last. */
  function Extend(parts: seq<bytes>, c: byte, sep: byte): (r: seq<bytes>)
    requires |parts| >= 1
    ensures |r| >= 1
  {
    if c == sep then parts + [[]] else parts[..|parts| - 1] + [parts[|parts| - 1] + [c]]
  }

  function Join(parts: seq<bytes>, sep: byte): bytes
    requires |parts| >= 1
  {
    if |parts| == 1 then parts[0] else Join(parts[..|parts| - 1], sep) + [sep] + parts[|parts| - 1]
  }

  /** Splitting depends only on the bytes in the range. */
  lemma {:induction false} SplitRangeAgrees(s: bytes, lo: nat, t: bytes, from: nat, n: nat, sep: byte)
    requires lo + n <= |s| && from + n <= |t|
    requires forall i | lo <= i < lo + n :: s[i] == t[i - lo + from]
    ensures SplitRange(s, lo, lo + n, sep) == SplitRange(t, from, from + n, sep)
  {
    if n > 0 {
      SplitRangeAgrees(s, lo, t, from, n - 1, sep);
      assert s[lo + n - 1] == t[from + n - 1];
    }
  }

  lemma ExtendAppended(xs: seq<bytes>, ys: seq<bytes>, c: byte, sep: byte)
    requires |ys| >= 1
    ensures Extend(xs + ys, c, sep) == xs + Extend(ys, c, sep)
  {
  }

  /** A separator divides the components of a range in two. */
  lemma {:induction false} SplitAtSeparator(s: bytes, lo: nat, m: nat, hi: nat, sep: byte)
    requires lo <= m < hi <= |s| && s[m] == sep
    ensures SplitRange(s, lo, hi, sep) == SplitRange(s, lo, m, sep) + SplitRange(s, m + 1, hi, sep)
  {
    if hi > m + 1 {
      SplitAtSeparator(s, lo, m, hi - 1, sep);
      ExtendAppended(SplitRange(s, lo, m, sep), SplitRange(s, m + 1, hi - 1, sep), s[hi - 1], sep);
    }
  }

  lemma SplitConcat(a: bytes, b: bytes, sep: byte)
    ensures Split(a + [sep] + b, sep) == Split(a, sep) + Split(b, sep)
  {
    hide SplitRange;
    var s := a + [sep] + b;
    SplitAtSeparator(s, 0, |a|, |s|, sep);
    SplitRangeAgrees(s, 0, a, 0, |a|, sep);
    SplitRangeAgrees(s, |a| + 1, b, 0, |b|, sep);
  }

  lemma {:induction false} SplitWithoutSeparator(s: bytes, n: nat, sep: byte)
    requires n <= |s| && sep !in s[..n]
    ensures SplitRange(s, 0, n, sep) == [s[..n]]
  {
    if n > 0 {
      assert s[..n] == s[..n - 1] + [s[n - 1]];
      SplitWithoutSeparator(s, n - 1, sep);
    }
  }

  /** `Split` inverts `Join` on separator-free components. */
  lemma {:induction false} SplitJoin(parts: seq<bytes>, sep: byte)
    requires |parts| >= 1
    requires forall p <- parts :: sep !in p
    ensures Split(Join(parts, sep), sep) == parts
  {
    var last := parts[|parts| - 1];
    assert last in parts;
    assert last[..|last|] == last;
    SplitWithoutSeparator(last, |last|, sep);
    if |parts| > 1 {
      var init := parts[..|parts| - 1];
      SplitJoin(init, sep);
      SplitConcat(Join(init, sep), last, sep);
      assert parts == init + [last];
    }
  }

  lemma JoinExtended(parts: seq<bytes>, c: byte, sep: byte)
    requires |parts| >= 1
    ensures Join(Extend(parts, c, sep), sep) == Join(parts, sep) + [c]
  {
    var more := Extend(parts, c, sep);
    if c == sep {
      assert more[..|more| - 1] == parts;
    } else {
      assert more[..|more| - 1] == parts[..|parts| - 1];
    }
  }

  lemma ExtendedWithoutSeparator(parts: seq<bytes>, c: byte, sep: byte)
    requires |parts| >= 1 && forall p <- parts :: sep !in p
    ensures forall p <- Extend(parts, c, sep) :: sep !in p
  {
    assert parts[|parts| - 1] in parts;
  }

  /** `Join` inverts `Split`, whose components never contain the separator. */
  lemma {:induction false} JoinSplit(s: bytes, n: nat, sep: byte)
    requires n <= |s|
    ensures Join(SplitRange(s, 0, n, sep), sep) == s[..n]
    ensures forall p <- SplitRange(s, 0, n, sep) :: sep !in p
  {
    if n > 0 {
      var parts := SplitRange(s, 0, n - 1, sep);
      JoinSplit(s, n - 1, sep);
      JoinExtended(parts, s[n - 1], sep);
      assert s[..n] == s[..n - 1] + [s[n - 1]];
      hide Join;
      ExtendedWithoutSeparator(parts, s[n - 1], sep);
    }
  }

  lemma MemberOfPrefix<T>(x: T, xs: seq<T>, whole: seq<T>)
    requires xs <= whole && x in xs
    ensures x in whole
  {
    var k :| 0 <= k < |xs| && xs[k] == x;
    assert whole[k] == x;
  }

  /** A prefix that stops at a separator, or at the end, splits into components of the whole text. */
  lemma ComponentOfPrefix(s: bytes, i: nat, component: bytes, sep: byte)
    requires i == |s| || (i < |s| && s[i] == sep)
    requires component in SplitRange(s, 0, i, sep)
    ensures component in Split(s, sep)
  {
    if i < |s| {
      SplitAtSeparator(s, 0, i, |s|, sep);
      MemberOfPrefix(component, SplitRange(s, 0, i, sep), Split(s, sep));
    }
  }

  lemma {:induction false} SplitRangeGrows(s: bytes, m: nat, n: nat, sep: byte)
    requires m <= n <= |s|
    ensures |SplitRange(s, 0, m, sep)| <= |SplitRange(s, 0, n, sep)|
  {
    if m < n {
      SplitRangeGrows(s, m, n - 1, sep);
    }
  }

  /** Every byte that is not a separator stands in some component. */
  lemma {:induction false} ByteInComponent(s: bytes, n: nat, i: nat, sep: byte) returns (k: nat)
    requires i < n <= |s| && s[i] != sep
    ensures k < |SplitRange(s, 0, n, sep)| && s[i] in SplitRange(s, 0, n, sep)[k]
  {
    var parts := SplitRange(s, 0, n - 1, sep);
    if i == n - 1 {
      k := |parts| - 1;
      assert SplitRange(s, 0, n, sep)[k] == parts[k] + [s[i]];
    } else {
      k := ByteInComponent(s, n - 1, i, sep);
      if k == |parts| - 1 && s[n - 1] != sep {
        assert SplitRange(s, 0, n, sep)[k] == parts[k] + [s[n - 1]];
      } else {
        assert SplitRange(s, 0, n, sep)[k] == parts[k];
      }
    }
  }

  /** A left-to-right scan: `done` are the components closed before `start`, the open one reaches to `i`. */
  ghost predicate Scanned(s: bytes, sep: byte, done: seq<bytes>, start: nat, i: nat) {
    start <= i <= |s| && SplitRange(s, 0, i, sep) == done + [s[start..i]]
  }

  lemma ScanStarts(s: bytes, sep: byte)
    ensures Scanned(s, sep, [], 0, 0)
  {
  }

  lemma ScanStep(s: bytes, sep: byte, done: seq<bytes>, start: nat, i: nat)
    requires Scanned(s, sep, done, start, i) && i < |s|
    ensures s[i] == sep ==> Scanned(s, sep, done + [s[start..i]], i + 1, i + 1)
    ensures s[i] != sep ==> Scanned(s, sep, done, start, i + 1)
  {
    assert s[i + 1..i + 1] == [];
    assert s[start..i] + [s[i]] == s[start..i + 1];
    assert (done + [s[start..i]])[..|done|] == done;
  }

  /** The open component, where a separator or the end closes it, is a component of the whole text. */
  lemma ScanCloses(s: bytes, sep: byte, done: seq<bytes>, start: nat, i: nat)
    requires Scanned(s, sep, done, start, i)
    requires i == |s| || s[i] == sep
    ensures s[start..i] in Split(s, sep)
    ensures |done| + 1 <= |Split(s, sep)|
    ensures i == |s| ==> Split(s, sep) == done + [s[start..i]]
  {
    var parts := SplitRange(s, 0, i, sep);
    assert parts[|done|] == s[start..i];
    ComponentOfPrefix(s, i, s[start..i], sep);
    SplitRangeGrows(s, i, |s|, sep);
  }
}
