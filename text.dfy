/** The parts of Python's `str` and `os.path` (POSIX flavour) that the two
    scripts use: `strip`, `lower`, `split`, `join`, substring containment,
    `basename` and `splitext`. */
module Text {

  /** Python's `str.isspace`: the characters `strip()` removes. */
  predicate IsSpace(c: char) {
    var n := c as int;
    n == 0x20 || 0x09 <= n <= 0x0D || 0x1C <= n <= 0x1F || n == 0x85 || n == 0xA0
    || n == 0x1680 || 0x2000 <= n <= 0x200A || n == 0x2028 || n == 0x2029
    || n == 0x202F || n == 0x205F || n == 0x3000
  }

  ghost predicate AllSpace(s: string) {
    forall k :: 0 <= k < |s| ==> IsSpace(s[k])
  }

  /** `s` without its leading whitespace (`str.lstrip()`). */
  function TrimStart(s: string): string {
    if s != [] && IsSpace(s[0]) then TrimStart(s[1..]) else s
  }

  /** `s` without its trailing whitespace (`str.rstrip()`). */
  function TrimEnd(s: string): string {
    if s != [] && IsSpace(s[|s| - 1]) then TrimEnd(s[..|s| - 1]) else s
  }

  /** Python's `str.strip()` with no argument. */
  function Strip(s: string): string {
    TrimEnd(TrimStart(s))
  }

  lemma {:induction false} TrimStartCutsOnlySpace(s: string)
    ensures var r := TrimStart(s);
      && |r| <= |s| && r == s[|s| - |r|..] && AllSpace(s[..|s| - |r|])
      && (r == [] || !IsSpace(r[0]))
  {
    if s != [] && IsSpace(s[0]) {
      TrimStartCutsOnlySpace(s[1..]);
      var r := TrimStart(s[1..]);
      assert s[..|s| - |r|] == [s[0]] + s[1..][..|s| - 1 - |r|];
    }
  }

  lemma {:induction false} TrimEndCutsOnlySpace(s: string)
    ensures var r := TrimEnd(s);
      && |r| <= |s| && r == s[..|r|] && AllSpace(s[|r|..])
      && (r == [] || !IsSpace(r[|r| - 1]))
  {
    if s != [] && IsSpace(s[|s| - 1]) {
      var t := s[..|s| - 1];
      TrimEndCutsOnlySpace(t);
      var r := TrimEnd(t);
      assert s[|r|..] == t[|r|..] + [s[|s| - 1]];
      assert t[..|r|] == s[..|r|];
    }
  }

  /** `Strip(s)` is `s` with the whitespace cut off at both ends, and
      nothing more: what is cut is whitespace, and what is left neither
      starts nor ends with whitespace. */
  lemma StripCutsOnlySpace(s: string)
    ensures var r := Strip(s);
      && (exists i :: 0 <= i <= |s| - |r| && AllSpace(s[..i]) && s[i..i + |r|] == r && AllSpace(s[i + |r|..]))
      && (r == [] || (!IsSpace(r[0]) && !IsSpace(r[|r| - 1])))
  {
    var t := TrimStart(s);
    var r := TrimEnd(t);
    TrimStartCutsOnlySpace(s);
    TrimEndCutsOnlySpace(t);
    var i := |s| - |t|;
    assert s[i..i + |r|] == r;
    assert s[i + |r|..] == t[|r|..];
    assert r != [] ==> r[0] == t[0];
  }

  lemma StripIdempotent(s: string)
    ensures Strip(Strip(s)) == Strip(s)
  {
    var r := Strip(s);
    StripCutsOnlySpace(s);
    assert TrimStart(r) == r;
    assert TrimEnd(r) == r;
  }

  lemma StripKeepsCharacters(s: string)
    ensures forall c :: c in Strip(s) ==> c in s
  {
    var t := TrimStart(s);
    TrimStartCutsOnlySpace(s);
    TrimEndCutsOnlySpace(t);
    assert forall c :: c in Strip(s) ==> c in t;
  }

  /** A string that neither starts nor ends with whitespace is its own strip. */
  lemma StripUnpadded(s: string)
    requires s == [] || (!IsSpace(s[0]) && !IsSpace(s[|s| - 1]))
    ensures Strip(s) == s
  {
  }

  predicate IsUpper(c: char) {
    'A' <= c <= 'Z'
  }

  function LowerChar(c: char): char {
    if IsUpper(c) then (c as int + 32) as char else c
  }

  /** Python's `str.lower()`, restricted to ASCII letters. */
  function Lower(s: string): string {
    if s == [] then [] else [LowerChar(s[0])] + Lower(s[1..])
  }

  /** Nothing `Lower` returns holds an upper-case letter. */
  lemma {:induction false} LowerHasNoUpper(s: string)
    ensures forall c :: c in Lower(s) ==> !IsUpper(c)
  {
    if s != [] {
      LowerHasNoUpper(s[1..]);
    }
  }

  /** A string without upper-case letters is its own lower-case form. */
  lemma {:induction false} LowerUnchanged(s: string)
    requires forall k :: 0 <= k < |s| ==> !IsUpper(s[k])
    ensures Lower(s) == s
  {
    if s != [] {
      LowerUnchanged(s[1..]);
      assert [s[0]] + s[1..] == s;
    }
  }

  /** Python's `s.split(sep)` for a one-character separator: the pieces
      between separators, empty ones included; never an empty list. */
  function Split(s: string, sep: char): (parts: seq<string>)
    ensures |parts| >= 1
  {
    if s == [] then [[]]
    else
      var rest := Split(s[1..], sep);
      if s[0] == sep then [[]] + rest else [[s[0]] + rest[0]] + rest[1..]
  }

  /** No piece of a split holds the separator, and every character of a
      piece comes from the string split. */
  lemma {:induction false} SplitPieces(s: string, sep: char)
    ensures forall p :: p in Split(s, sep) ==> sep !in p
    ensures forall p, c :: p in Split(s, sep) && c in p ==> c in s
  {
    if s != [] {
      SplitPieces(s[1..], sep);
      var rest := Split(s[1..], sep);
      if s[0] != sep {
        forall p | p in Split(s, sep) ensures sep !in p && forall c :: c in p ==> c in s {
          if p != [s[0]] + rest[0] {
            assert p in rest;
          }
        }
      }
    }
  }

  /** Python's `sep.join(parts)`. */
  function Join(parts: seq<string>, sep: char): string {
    if parts == [] then []
    else if |parts| == 1 then parts[0]
    else parts[0] + [sep] + Join(parts[1..], sep)
  }

  lemma JoinConsHead(c: char, head: string, rest: seq<string>, sep: char)
    ensures Join([[c] + head] + rest, sep) == [c] + Join([head] + rest, sep)
  {
    var ps := [[c] + head] + rest;
    assert ps[1..] == rest;
    assert ([head] + rest)[1..] == rest;
  }

  /** Joining the pieces of a split gives the original string back. */
  lemma {:induction false} JoinSplit(s: string, sep: char)
    ensures Join(Split(s, sep), sep) == s
  {
    if s != [] {
      var rest := Split(s[1..], sep);
      JoinSplit(s[1..], sep);
      if s[0] == sep {
        assert ([[]] + rest)[1..] == rest;
      } else {
        assert [rest[0]] + rest[1..] == rest;
        JoinConsHead(s[0], rest[0], rest[1..], sep);
      }
    }
  }

  lemma {:induction false} SplitNoSeparator(p: string, sep: char)
    requires sep !in p
    ensures Split(p, sep) == [p]
  {
    if p != [] {
      SplitNoSeparator(p[1..], sep);
      assert [p[0]] + p[1..] == p;
    }
  }

  lemma {:induction false} SplitAfterPiece(p: string, t: string, sep: char)
    requires sep !in p
    ensures Split(p + [sep] + t, sep) == [p] + Split(t, sep)
  {
    var s := p + [sep] + t;
    if p == [] {
      assert s[1..] == t;
    } else {
      assert s[1..] == p[1..] + [sep] + t;
      SplitAfterPiece(p[1..], t, sep);
      assert [p[0]] + p[1..] == p;
    }
  }

  /** Splitting a join of separator-free pieces gives the pieces back. */
  lemma {:induction false} SplitJoin(parts: seq<string>, sep: char)
    requires |parts| >= 1
    requires forall p :: p in parts ==> sep !in p
    ensures Split(Join(parts, sep), sep) == parts
  {
    if |parts| == 1 {
      SplitNoSeparator(parts[0], sep);
    } else {
      SplitJoin(parts[1..], sep);
      SplitAfterPiece(parts[0], Join(parts[1..], sep), sep);
      assert [parts[0]] + parts[1..] == parts;
    }
  }

  /** Python's `needle in haystack` on strings (the model also reads
      pandas' `str.contains` this way). */
  predicate Contains(haystack: string, needle: string)
    decreases |haystack|
  {
    needle <= haystack || (haystack != [] && Contains(haystack[1..], needle))
  }

  /** One past the index of the last `c` in `p`, 0 when there is none:
      `p.rfind(c) + 1`. */
  function AfterLast(p: string, c: char): (k: nat)
    ensures k <= |p|
    ensures c !in p[k..]
    ensures k > 0 ==> p[k - 1] == c
  {
    if p == [] then 0
    else if p[|p| - 1] == c then |p|
    else
      var k := AfterLast(p[..|p| - 1], c);
      assert p[k..] == p[..|p| - 1][k..] + [p[|p| - 1]];
      k
  }

  /** The last `c` of `x + [c] + y` is the one written out when `y` has none. */
  lemma {:induction false} AfterLastFound(x: string, c: char, y: string)
    requires c !in y
    ensures AfterLast(x + [c] + y, c) == |x| + 1
    decreases |y|
  {
    var p := x + [c] + y;
    if y != [] {
      var y' := y[..|y| - 1];
      assert p[..|p| - 1] == x + [c] + y';
      AfterLastFound(x, c, y');
    }
  }

  lemma {:induction false} AfterLastNone(p: string, c: char)
    requires c !in p
    ensures AfterLast(p, c) == 0
  {
    if p != [] {
      assert c !in p[..|p| - 1];
      AfterLastNone(p[..|p| - 1], c);
    }
  }

  /** Where the last component of a POSIX path starts: just past its last '/'. */
  function ComponentStart(p: string): nat {
    AfterLast(p, '/')
  }

  /** `os.path.basename`: the text after the last '/'. */
  function Basename(p: string): string {
    p[ComponentStart(p)..]
  }

  /** Index of the last '.' of `p`, -1 when there is none (`str.rfind`). */
  function LastDot(p: string): int {
    AfterLast(p, '.') - 1
  }

  /** Some character of `p[lo..hi]` is not a '.'. */
  predicate HasNonDot(p: string, lo: int, hi: int)
    requires 0 <= lo && hi <= |p|
  {
    exists k :: lo <= k < hi && p[k] != '.'
  }

  /** `os.path.splitext` on a POSIX path: the extension runs from the last
      '.' of the last component to the end, unless that component has only
      dots before it (a leading-dot name such as `.bashrc` has none). */
  function SplitExt(p: string): (string, string) {
    var s := ComponentStart(p);
    var d := LastDot(p);
    if d >= s && HasNonDot(p, s, d) then (p[..d], p[d..]) else (p, [])
  }

  /** What `SplitExt` cuts off is empty or a '.' followed by neither '.'
      nor '/', taken from the last component after a character other than
      '.'; the two parts put together give the path back. */
  lemma SplitExtShape(p: string)
    ensures SplitExt(p).0 + SplitExt(p).1 == p
    ensures var ext := SplitExt(p).1;
      ext != [] ==> ext[0] == '.' && '.' !in ext[1..] && '/' !in ext
    ensures SplitExt(p).1 != [] ==>
      ComponentStart(p) <= LastDot(p) == |SplitExt(p).0| && HasNonDot(p, ComponentStart(p), LastDot(p))
    ensures SplitExt(p).1 == [] <==>
      LastDot(p) < ComponentStart(p) || !HasNonDot(p, ComponentStart(p), LastDot(p))
  {
    SplitExtCut(p);
    SplitExtKept(p);
  }

  lemma SplitExtCut(p: string)
    ensures SplitExt(p).0 + SplitExt(p).1 == p
    ensures var ext := SplitExt(p).1;
      ext != [] ==> ext[0] == '.' && '.' !in ext[1..] && '/' !in ext
  {
    var s := ComponentStart(p);
    var d := LastDot(p);
    if d >= s && HasNonDot(p, s, d) {
      assert p[d..][1..] == p[d + 1..];
      assert p[d..] == p[s..][d - s..];
    }
  }

  lemma SplitExtKept(p: string)
    ensures SplitExt(p).1 != [] ==>
      ComponentStart(p) <= LastDot(p) == |SplitExt(p).0| && HasNonDot(p, ComponentStart(p), LastDot(p))
    ensures SplitExt(p).1 == [] <==>
      LastDot(p) < ComponentStart(p) || !HasNonDot(p, ComponentStart(p), LastDot(p))
  {
  }
}
