/** The few Python string and path primitives the crawler relies on:
    substring membership (`sub in s`), `str.rfind`, `str.rsplit('/', 1)[0]`
    and `os.path.splitext(p)[1]` (POSIX flavour). */
module Text {

  /** `sub` occurs in `s` starting at index `i`. */
  ghost predicate OccursAt(s: string, sub: string, i: int)
  {
    0 <= i && i + |sub| <= |s| && s[i..i + |sub|] == sub
  }

  /** An occurrence past the first index of `s` is an occurrence in `s[1..]`, one place earlier. */
  lemma ShiftOccurrences(s: string, sub: string)
    requires |s| >= 1 && |sub| <= |s| && s[..|sub|] != sub
    ensures (exists i :: OccursAt(s, sub, i)) <==> (exists i :: OccursAt(s[1..], sub, i))
  {
    if i :| OccursAt(s, sub, i) {
      assert i != 0;
      assert s[1..][i - 1..i - 1 + |sub|] == s[i..i + |sub|];
      assert OccursAt(s[1..], sub, i - 1);
    }
    if i :| OccursAt(s[1..], sub, i) {
      assert s[1..][i..i + |sub|] == s[i + 1..i + 1 + |sub|];
      assert OccursAt(s, sub, i + 1);
    }
  }

  /** Python's `sub in s` on strings (the empty string occurs everywhere). */
  function Contains(s: string, sub: string): bool
    decreases |s|
  {
    if |sub| > |s| then false
    else if s[..|sub|] == sub then true
    else Contains(s[1..], sub)
  }

  /** `Contains` tells exactly whether `sub` occurs somewhere in `s`. */
  lemma {:induction false} ContainsMeaning(s: string, sub: string)
    ensures Contains(s, sub) <==> exists i :: OccursAt(s, sub, i)
    decreases |s|
  {
    if |sub| > |s| {
    } else if s[..|sub|] == sub {
      assert OccursAt(s, sub, 0);
    } else {
      ShiftOccurrences(s, sub);
      ContainsMeaning(s[1..], sub);
    }
  }

  /** Python's `s.rfind(c, 0, end)`: the index of the last `c` before `end`, or -1. */
  function RFindBefore(s: string, c: char, end: nat): (r: int)
    requires end <= |s|
    ensures -1 <= r < end
  {
    if end == 0 then -1
    else if s[end - 1] == c then end - 1
    else RFindBefore(s, c, end - 1)
  }

  /** `RFindBefore` finds the last `c` before `end`, or reports that there is none. */
  lemma {:induction false} RFindBeforeMeaning(s: string, c: char, end: nat)
    requires end <= |s|
    ensures var r := RFindBefore(s, c, end);
      && (0 <= r ==> s[r] == c)
      && (forall k :: r < k < end ==> s[k] != c)
  {
    if end > 0 && s[end - 1] != c {
      RFindBeforeMeaning(s, c, end - 1);
    }
  }

  /** Python's `s.rfind(c)`: the index of the last `c` in `s`, or -1. */
  function RFind(s: string, c: char): int
  {
    RFindBefore(s, c, |s|)
  }

  /** Python's `s.rsplit('/', 1)[0]`: everything before the last slash, or all of `s`. */
  function BeforeLastSlash(s: string): string
  {
    var i := RFind(s, '/');
    if i < 0 then s else s[..i]
  }

  /** Without a slash the whole string is kept; otherwise what is kept is the
      prefix up to a slash after which no slash follows. */
  lemma BeforeLastSlashMeaning(s: string)
    ensures '/' !in s ==> BeforeLastSlash(s) == s
    ensures '/' in s ==> var r := BeforeLastSlash(s);
      |r| < |s| && r == s[..|r|] && s[|r|] == '/' && '/' !in s[|r| + 1..]
  {
    RFindBeforeMeaning(s, '/', |s|);
    var r := BeforeLastSlash(s);
    if '/' in s {
      var tail := s[|r| + 1..];
      assert forall k :: 0 <= k < |tail| ==> tail[k] == s[|r| + 1 + k];
    }
  }

  /** Python's `os.path.splitext(p)[1]` (POSIX): scanning back from the end,
      the text from the last dot on, provided no slash comes after it and the
      final path component does not hold only dots before it; otherwise "". */
  function Ext(p: string): string
  {
    ExtFrom(p, |p|)
  }

  /** The scan behind `Ext`, looking at `p[i - 1]` next. */
  function ExtFrom(p: string, i: nat): string
    requires i <= |p|
  {
    if i == 0 || p[i - 1] == '/' then ""
    else if p[i - 1] == '.' then (if StemHasNonDot(p, i - 1) then p[i - 1..] else "")
    else ExtFrom(p, i - 1)
  }

  /** Going back from `p[j - 1]` over dots, a character other than a dot or a
      slash turns up (the leading-dots test of `posixpath.splitext`). */
  function StemHasNonDot(p: string, j: nat): bool
    requires j <= |p|
  {
    if j == 0 || p[j - 1] == '/' then false
    else if p[j - 1] != '.' then true
    else StemHasNonDot(p, j - 1)
  }

  /** Before index `j`, within the path component that `j` is in, some character is not a dot. */
  ghost predicate StemBefore(p: string, j: int)
  {
    exists k :: 0 <= k < j <= |p| && p[k] != '.' && p[k] != '/'
                && forall m :: k < m < j ==> p[m] != '/'
  }

  /** `e` is the extension of path `p`: a dot followed by neither dots nor
      slashes, ending `p`, after a stem whose last component is not dots alone. */
  ghost predicate IsExtOf(p: string, e: string)
  {
    && 1 <= |e| <= |p|
    && p[|p| - |e|..] == e
    && e[0] == '.'
    && (forall k :: 1 <= k < |e| ==> e[k] != '.' && e[k] != '/')
    && StemBefore(p, |p| - |e|)
  }

  lemma {:induction false} StemHasNonDotMeaning(p: string, j: nat)
    requires j <= |p|
    ensures StemHasNonDot(p, j) <==> StemBefore(p, j)
    decreases j
  {
    if j == 0 {
    } else if p[j - 1] == '/' {
    } else if p[j - 1] != '.' {
      assert p[j - 1] != '/';
    } else {
      StemHasNonDotMeaning(p, j - 1);
      if StemBefore(p, j) {
        var k :| 0 <= k < j <= |p| && p[k] != '.' && p[k] != '/'
                 && forall m :: k < m < j ==> p[m] != '/';
        assert StemBefore(p, j - 1) by { assert k < j - 1; }
      }
    }
  }

  /** No dot and no slash in `p[i..]`. */
  ghost predicate PlainFrom(p: string, i: int)
  {
    forall k :: 0 <= i <= k < |p| ==> p[k] != '.' && p[k] != '/'
  }

  lemma {:induction false} ExtFromSound(p: string, i: nat)
    requires i <= |p| && PlainFrom(p, i)
    ensures ExtFrom(p, i) == "" || IsExtOf(p, ExtFrom(p, i))
    decreases i
  {
    if i == 0 || p[i - 1] == '/' {
    } else if p[i - 1] == '.' {
      StemHasNonDotMeaning(p, i - 1);
      var e := p[i - 1..];
      assert forall k :: 1 <= k < |e| ==> e[k] == p[i - 1 + k];
    } else {
      ExtFromSound(p, i - 1);
    }
  }

  lemma {:induction false} ExtFromComplete(p: string, i: nat, x: string)
    requires i <= |p| && PlainFrom(p, i)
    requires IsExtOf(p, x) && |p| - |x| < i
    ensures ExtFrom(p, i) == x
    decreases i
  {
    var d := |p| - |x|;
    assert p[d] == x[0];
    if i - 1 == d {
      StemHasNonDotMeaning(p, d);
    } else {
      assert p[i - 1] == x[i - 1 - d];
      ExtFromComplete(p, i - 1, x);
    }
  }

  /** When `Ext` yields something, it is the extension of the path. */
  lemma ExtSound(p: string)
    ensures Ext(p) == "" || IsExtOf(p, Ext(p))
  {
    ExtFromSound(p, |p|);
  }

  /** A path that has an extension gets exactly that one from `Ext`; so `Ext`
      yields "" only for a path with no extension. */
  lemma ExtComplete(p: string, x: string)
    requires IsExtOf(p, x)
    ensures Ext(p) == x
  {
    ExtFromComplete(p, |p|, x);
  }
}
