/**
 * The few pieces of Python's string and path library that the endpoint
 * relies on: `str.lower`, `str.strip` (no arguments) and `os.path.splitext`.
 */
module PyStr {

  // ---------------------------------------------------------------------------
  // str.lower
  // ---------------------------------------------------------------------------

  /** Lower-casing of one character, for the ASCII range that Python's
      `str.lower` maps as A..Z to a..z; every other character is kept. */
  function LowerChar(c: char): char {
    if 'A' <= c <= 'Z' then (c as int + 32) as char else c
  }

  /** `s.lower()` with the mapping above applied to every character. */
  function Lower(s: string): string
  {
    seq(|s|, i requires 0 <= i < |s| => LowerChar(s[i]))
  }

  /** Lower-casing twice is lower-casing once. */
  lemma LowerIdempotent(s: string)
    ensures Lower(Lower(s)) == Lower(s)
  {
  }

  /** `s.lower() == t`, for a `t` without upper-case ASCII letters, says
      exactly that `s` spells `t` with any of its letters a..z possibly
      written as A..Z. */
  lemma LowerSpells(s: string, t: string)
    requires forall k :: 0 <= k < |t| ==> !('A' <= t[k] <= 'Z')
    ensures Lower(s) == t <==>
            |s| == |t| && forall k :: 0 <= k < |s| ==> s[k] == t[k] || ('a' <= t[k] <= 'z' && s[k] as int == t[k] as int - 32)
  {
  }

  // ---------------------------------------------------------------------------
  // str.strip
  // ---------------------------------------------------------------------------

  /** Python's `str.isspace` for one character: the characters whose
      bidirectional class is WS, B or S, or whose category is Zs. */
  predicate IsSpace(c: char) {
    || ('\t' <= c <= '\r')
    || ('\U{1C}' <= c <= ' ')
    || c == '\U{85}' || c == '\U{A0}' || c == '\U{1680}'
    || ('\U{2000}' <= c <= '\U{200A}')
    || c == '\U{2028}' || c == '\U{2029}' || c == '\U{202F}'
    || c == '\U{205F}' || c == '\U{3000}'
  }

  /** Every character of `s[lo..hi]` is white space. */
  predicate SpaceBetween(s: string, lo: int, hi: int)
    requires 0 <= lo <= hi <= |s|
  {
    forall k :: lo <= k < hi ==> IsSpace(s[k])
  }

  /** The first index at or after `i` that does not hold white space. */
  function SkipSpace(s: string, i: nat): (j: nat)
    requires i <= |s|
    ensures i <= j <= |s| && SpaceBetween(s, i, j)
    ensures j == |s| || !IsSpace(s[j])
    decreases |s| - i
  {
    if i < |s| && IsSpace(s[i]) then SkipSpace(s, i + 1) else i
  }

  /** The smallest `k`, going down from `j` but not below `lo`, such that
      `s[k..j]` is all white space. */
  function SkipSpaceBack(s: string, lo: nat, j: nat): (k: nat)
    requires lo <= j <= |s|
    ensures lo <= k <= j && SpaceBetween(s, k, j)
    ensures k == lo || !IsSpace(s[k - 1])
    decreases j
  {
    if j > lo && IsSpace(s[j - 1]) then SkipSpaceBack(s, lo, j - 1) else j
  }

  /** `s.strip()`: the middle part of `s` that neither starts nor ends with
      white space, and only white space is removed around it. */
  function Strip(s: string): (r: string)
    ensures r == [] || (!IsSpace(r[0]) && !IsSpace(r[|r| - 1]))
    ensures exists i :: 0 <= i <= |s| - |r| && r == s[i..i + |r|] && SpaceBetween(s, 0, i) && SpaceBetween(s, i + |r|, |s|)
  {
    var i := SkipSpace(s, 0);
    var j := SkipSpaceBack(s, i, |s|);
    s[i..j]
  }

  /** Stripping twice is stripping once. */
  lemma StripIdempotent(s: string)
    ensures Strip(Strip(s)) == Strip(s)
  {
  }

  // ---------------------------------------------------------------------------
  // os.path.splitext
  // ---------------------------------------------------------------------------

  /** Which `os.path` the process uses: `posixpath` separates path components
      with '/', `ntpath` with '\\' and '/'. */
  datatype Flavor = Posix | Windows

  function Seps(f: Flavor): set<char> {
    match f
    case Posix => {'/'}
    case Windows => {'\\', '/'}
  }

  /** The index of the last `c` in `p[..n]`, or -1 when there is none. */
  function LastIndexBefore(p: string, c: char, n: nat): (r: int)
    requires n <= |p|
    ensures -1 <= r < n
    ensures r >= 0 ==> p[r] == c
    ensures forall j :: r < j < n ==> p[j] != c
    decreases n
  {
    if n == 0 then -1
    else if p[n - 1] == c then n - 1
    else LastIndexBefore(p, c, n - 1)
  }

  /** `p.rfind(c)`: the index of the last `c` in `p`, or -1 when there is none. */
  function RFind(p: string, c: char): (r: int)
    ensures -1 <= r < |p|
    ensures r >= 0 ==> p[r] == c
    ensures forall j :: r < j < |p| ==> p[j] != c
  {
    LastIndexBefore(p, c, |p|)
  }

  /** The index of the last path separator of `p`, or -1; for `ntpath` the
      larger of the two `rfind` results, as the library computes it. */
  function LastSep(p: string, f: Flavor): (r: int)
    ensures -1 <= r < |p|
    ensures r >= 0 ==> p[r] in Seps(f)
    ensures forall j :: r < j < |p| ==> p[j] !in Seps(f)
  {
    match f
    case Posix => RFind(p, '/')
    case Windows =>
      var a, b := RFind(p, '\\'), RFind(p, '/');
      if a < b then b else a
  }

  /** Every character of `p[lo..hi]` is a '.'. */
  predicate DotsBetween(p: string, lo: int, hi: int)
    requires 0 <= lo <= hi <= |p|
  {
    forall k :: lo <= k < hi ==> p[k] == '.'
  }

  /** Where `os.path.splitext` cuts `p`: at the last '.' when it lies in the
      final path component and some character of that component before it
      is not a '.'; otherwise at the end, leaving an empty extension. A cut
      before the end is at a '.' followed by characters that are neither '.'
      nor a separator. */
  function ExtStart(p: string, f: Flavor): (d: nat)
    ensures d <= |p|
    ensures d < |p| ==> p[d] == '.' && forall k :: d < k < |p| ==> p[k] != '.' && p[k] !in Seps(f)
  {
    var sepIndex := LastSep(p, f);
    var dotIndex := RFind(p, '.');
    if dotIndex > sepIndex && !DotsBetween(p, sepIndex + 1, dotIndex) then dotIndex else |p|
  }

  /** `os.path.splitext(p)`: the root and the extension, which put back
      together are `p`; a non-empty extension is one '.' followed by
      characters that are neither '.' nor a separator. */
  function SplitExt(p: string, f: Flavor): (parts: (string, string))
    ensures parts.0 + parts.1 == p
    ensures parts.1 == [] || (parts.1[0] == '.' && forall k :: 1 <= k < |parts.1| ==> parts.1[k] != '.' && parts.1[k] !in Seps(f))
  {
    var d := ExtStart(p, f);
    assert p[..d] + p[d..] == p;
    (p[..d], p[d..])
  }

  /** The extension part of `os.path.splitext(p)`. */
  function Ext(p: string, f: Flavor): string
  {
    SplitExt(p, f).1
  }

  /** A cut before the end is at the last '.', which lies after the last
      separator with a character other than '.' between the two. */
  lemma NonEmptyExt(p: string, f: Flavor)
    requires ExtStart(p, f) < |p|
    ensures ExtStart(p, f) == RFind(p, '.') > LastSep(p, f)
    ensures exists i :: LastSep(p, f) < i < RFind(p, '.') && p[i] != '.'
  {
  }

  /** The last `c` sits at index `r` when `p[r]` is `c` and nothing after it is. */
  lemma RFindAt(p: string, c: char, r: int)
    requires -1 <= r < |p| && (r >= 0 ==> p[r] == c)
    requires forall j :: r < j < |p| ==> p[j] != c
    ensures RFind(p, c) == r
  {
  }

  /** A '.' at `d` with no '.' after it, and a character other than '.' at
      `i < d` with no separator from `i` on, make `d` the cut. */
  lemma ExtAt(p: string, f: Flavor, i: int, d: int)
    requires 0 <= i < d < |p| && p[d] == '.' && p[i] != '.'
    requires forall j :: d < j < |p| ==> p[j] != '.'
    requires forall j :: i <= j < |p| ==> p[j] !in Seps(f)
    ensures ExtStart(p, f) == d && Ext(p, f) == p[d..]
  {
    RFindAt(p, '.', d);
    assert LastSep(p, f) < i;
  }

  /** What follows the last separator. This is `posixpath.basename`; under
      `ntpath`, `basename` also drops a drive such as `C:`, which this does
      not (`ntpath.splitext` does not treat the drive specially either). */
  function BaseName(p: string, f: Flavor): string {
    p[LastSep(p, f) + 1..]
  }

  /** The number of '.' characters a name starts with. */
  function LeadingDots(name: string, i: nat := 0): (n: nat)
    requires i <= |name|
    ensures i <= n <= |name| && DotsBetween(name, i, n)
    ensures n == |name| || name[n] != '.'
    decreases |name| - i
  {
    if i < |name| && name[i] == '.' then LeadingDots(name, i + 1) else i
  }

  /** The extension of a bare file name as the library documents it: leading
      periods belong to the root, and after them the extension runs from the
      last period (if any) to the end. */
  function NameExt(name: string): string {
    var rest := name[LeadingDots(name)..];
    var d := RFind(rest, '.');
    if d >= 0 then rest[d..] else []
  }

  /** Searching a suffix finds the same last occurrence, shifted. */
  lemma RFindSuffix(p: string, c: char, k: nat)
    requires k <= |p|
    ensures RFind(p[k..], c) == if RFind(p, c) >= k then RFind(p, c) - k else -1
  {
    var r, q := RFind(p, c), RFind(p[k..], c);
    if q >= 0 {
      assert p[k + q] == c;
    }
    if r >= k {
      assert p[k..][r - k] == c;
    }
  }

  /** Inside a component starting at `start`, the characters before index
      `m` are all dots exactly when `m` falls among the leading dots. */
  lemma DotsBetweenIffLeading(p: string, start: nat, m: nat)
    requires start <= m < |p| && p[m] == '.'
    ensures DotsBetween(p, start, m) <==> m - start < LeadingDots(p[start..])
  {
    var name := p[start..];
    var n := LeadingDots(name);
    if m - start < n {
      assert forall k :: start <= k < m ==> p[k] == name[k - start];
    } else {
      assert p[start + n] == name[n];
    }
  }

  /** The documented extension of a name runs from its last '.' when that
      '.' is not one of the leading dots, and is empty otherwise. */
  lemma NameExtByLastDot(name: string)
    ensures var q := RFind(name, '.');
            NameExt(name) == if q >= LeadingDots(name) then name[q..] else []
  {
    var n := LeadingDots(name);
    var q := RFind(name, '.');
    RFindSuffix(name, '.', n);
    if q >= n {
      assert name[n..][q - n..] == name[q..];
    }
  }

  /** The documented extension of the text after the last separator, in
      terms of the last '.' of the whole path. */
  lemma NameExtOfBase(p: string, f: Flavor)
    ensures var start := LastSep(p, f) + 1;
            var dotIndex := RFind(p, '.');
            NameExt(BaseName(p, f)) ==
              if dotIndex >= start && dotIndex - start >= LeadingDots(p[start..]) then p[dotIndex..] else []
  {
    var start := LastSep(p, f) + 1;
    var dotIndex := RFind(p, '.');
    var name := BaseName(p, f);
    assert name == p[start..];
    NameExtByLastDot(name);
    RFindSuffix(p, '.', start);
    var q := RFind(name, '.');
    if q >= LeadingDots(name) {
      assert q == dotIndex - start;
      assert name[q..] == p[dotIndex..];
    }
  }

  /** `splitext` looks only at the final path component: its extension is the
      documented extension of the text after the last separator. */
  lemma ExtIsBaseNameExt(p: string, f: Flavor)
    ensures Ext(p, f) == NameExt(BaseName(p, f))
  {
    var start := LastSep(p, f) + 1;
    var dotIndex := RFind(p, '.');
    var cut := dotIndex >= start && dotIndex - start >= LeadingDots(p[start..]);
    NameExtOfBase(p, f);
    if dotIndex >= start {
      DotsBetweenIffLeading(p, start, dotIndex);
    }
    assert ExtStart(p, f) == if cut then dotIndex else |p|;
  }
}
