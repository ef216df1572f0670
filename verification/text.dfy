/** The few Python string and path primitives the core relies on:
    `str.strip`, `str.join`, `str.replace`, `os.path.basename` and
    `os.path.join` (POSIX flavour). */
module Text {

  /** Python's `str.isspace` for one character: the characters `str.strip()`
      removes when called without arguments. */
  predicate IsSpace(c: char) {
    var n := c as int;
    || n == 0x20 || (0x09 <= n <= 0x0D) || (0x1C <= n <= 0x1F)
    || n == 0x85 || n == 0xA0 || n == 0x1680 || (0x2000 <= n <= 0x200A)
    || n == 0x2028 || n == 0x2029 || n == 0x202F || n == 0x205F || n == 0x3000
  }

  /** `s.lstrip()`: the suffix of `s` left once the leading whitespace is gone. */
  function TrimStart(s: string): (r: string)
    ensures |r| <= |s| && r == s[|s| - |r|..]
    ensures forall i :: 0 <= i < |s| - |r| ==> IsSpace(s[i])
    ensures r == [] || !IsSpace(r[0])
  {
    if s != [] && IsSpace(s[0]) then TrimStart(s[1..]) else s
  }

  /** `s.rstrip()`: the prefix of `s` left once the trailing whitespace is gone. */
  function TrimEnd(s: string): (r: string)
    ensures |r| <= |s| && r == s[..|r|]
    ensures forall i :: |r| <= i < |s| ==> IsSpace(s[i])
    ensures r == [] || !IsSpace(r[|r| - 1])
  {
    if s != [] && IsSpace(s[|s| - 1]) then TrimEnd(s[..|s| - 1]) else s
  }

  /** `r` is `s` with the whitespace before position `a` and after `r` cut off. */
  predicate StripsTo(s: string, r: string, a: int) {
    && 0 <= a <= |s| - |r|
    && r == s[a..a + |r|]
    && (forall i :: 0 <= i < a ==> IsSpace(s[i]))
    && (forall i :: a + |r| <= i < |s| ==> IsSpace(s[i]))
  }

  /** `s.strip()`. */
  function Strip(s: string): (r: string)
    ensures |r| <= |s|
    ensures r == [] || (!IsSpace(r[0]) && !IsSpace(r[|r| - 1]))
  {
    TrimEnd(TrimStart(s))
  }

  /** `strip` keeps a middle slice of `s` and cuts only whitespace around it. */
  lemma StripKeepsMiddle(s: string)
    ensures exists a :: StripsTo(s, Strip(s), a)
  {
    var t := TrimStart(s);
    var r := TrimEnd(t);
    assert Strip(s) == r;
    var a := |s| - |t|;
    assert r == s[a..a + |r|];
    forall i | a + |r| <= i < |s|
      ensures IsSpace(s[i])
    {
      assert s[i] == t[i - a];
    }
    assert StripsTo(s, r, a);
  }

  /** `sep.join(xs)`. */
  function JoinWith(sep: string, xs: seq<string>): string {
    if xs == [] then []
    else if |xs| == 1 then xs[0]
    else xs[0] + sep + JoinWith(sep, xs[1..])
  }

  /** `pat` starts at position `i` of `s`. */
  predicate OccursAt(pat: string, s: string, i: int) {
    0 <= i <= |s| - |pat| && s[i..i + |pat|] == pat
  }

  /** `pat` starts at some position of `s`. */
  predicate Occurs(pat: string, s: string) {
    exists i | 0 <= i <= |s| :: OccursAt(pat, s, i)
  }

  /** `s.replace(pat, rep)` for a non-empty `pat`: every occurrence, found left
      to right without overlap, is replaced. */
  function Replace(s: string, pat: string, rep: string): (r: string)
    requires |pat| > 0
    ensures |pat| == |rep| ==> |r| == |s|
    decreases |s|
  {
    if |s| < |pat| then s
    else if s[..|pat|] == pat then rep + Replace(s[|pat|..], pat, rep)
    else [s[0]] + Replace(s[1..], pat, rep)
  }

  /** `replace` introduces no character that is in neither `s` nor `rep`. */
  lemma {:induction false} ReplaceChars(s: string, pat: string, rep: string)
    requires |pat| > 0
    ensures forall c :: c in Replace(s, pat, rep) ==> c in s || c in rep
    decreases |s|
  {
    if |s| >= |pat| {
      if s[..|pat|] == pat {
        ReplaceChars(s[|pat|..], pat, rep);
        forall c | c in s[|pat|..] ensures c in s { }
      } else {
        ReplaceChars(s[1..], pat, rep);
        forall c | c in s[1..] ensures c in s { }
      }
    }
  }

  /** `os.path.basename(p)`: the longest suffix of `p` without a `/`. */
  function Basename(p: string): (b: string)
    ensures '/' !in b && |b| <= |p|
  {
    if p == [] || p[|p| - 1] == '/' then []
    else Basename(p[..|p| - 1]) + [p[|p| - 1]]
  }

  /** The basename is the part of `p` after its last `/`: a suffix of `p`
      preceded by a `/` unless it is all of `p`. */
  lemma {:induction false} BasenameIsLastComponent(p: string)
    ensures var b := Basename(p);
      && p == p[..|p| - |b|] + b
      && (|b| < |p| ==> p[|p| - |b| - 1] == '/')
    decreases |p|
  {
    if p != [] && p[|p| - 1] != '/' {
      var q := p[..|p| - 1];
      BasenameIsLastComponent(q);
      var b := Basename(q);
      assert Basename(p) == b + [p[|p| - 1]];
      assert p == q + [p[|p| - 1]];
      assert q == q[..|q| - |b|] + b;
      assert p[..|p| - |b| - 1] == q[..|q| - |b|];
    }
  }

  /** `os.path.join(dir, name)` with two arguments, POSIX rules. */
  function JoinPath(dir: string, name: string): (r: string)
  {
    if name != [] && name[0] == '/' then name
    else if dir == [] || dir[|dir| - 1] == '/' then dir + name
    else dir + "/" + name
  }

  /** No occurrence in `s` means none in its tail either. */
  lemma NotOccursInTail(pat: string, s: string)
    requires s != [] && !Occurs(pat, s)
    ensures !Occurs(pat, s[1..])
  {
    if Occurs(pat, s[1..]) {
      var i :| 0 <= i <= |s[1..]| && OccursAt(pat, s[1..], i);
      assert i + 1 + |pat| <= |s|;
      assert s[i + 1..i + 1 + |pat|] == s[1..][i..i + |pat|];
      assert OccursAt(pat, s, i + 1);
    }
  }

  lemma {:induction false} ReplaceAbsent(s: string, pat: string, rep: string)
    requires |pat| > 0 && !Occurs(pat, s)
    ensures Replace(s, pat, rep) == s
    decreases |s|
  {
    if |s| >= |pat| {
      assert !OccursAt(pat, s, 0);
      NotOccursInTail(pat, s);
      ReplaceAbsent(s[1..], pat, rep);
    }
  }

  /** `replace` rewrites the first occurrence of `pat` and carries on after
      it: everything before that occurrence is kept, the occurrence becomes
      `rep`, and the rest is replaced in turn. With `ReplaceAbsent` this fixes
      every occurrence, left to right and without overlap. */
  lemma {:induction false} ReplaceFirstOccurrence(s: string, pat: string, rep: string, i: nat)
    requires |pat| > 0 && OccursAt(pat, s, i)
    requires forall j :: 0 <= j < i ==> !OccursAt(pat, s, j)
    ensures Replace(s, pat, rep) == s[..i] + rep + Replace(s[i + |pat|..], pat, rep)
    decreases i
  {
    if i == 0 {
      ReplaceAtMatch(s, pat, rep);
      assert s[..i] + rep == rep;
    } else {
      var t := s[1..];
      ReplaceSkipsNonMatch(s, pat, rep);
      TailOccurrence(s, pat, i);
      ReplaceFirstOccurrence(t, pat, rep, i - 1);
      assert t[i - 1 + |pat|..] == s[i + |pat|..];
      var rest := Replace(s[i + |pat|..], pat, rep);
      calc {
        Replace(s, pat, rep);
        [s[0]] + Replace(t, pat, rep);
        [s[0]] + (t[..i - 1] + rep + rest);
        { Regroup(s, i, rep, rest); }
        s[..i] + rep + rest;
      }
    }
  }

  /** Where `pat` starts `s`, `replace` begins with `rep`. */
  lemma ReplaceAtMatch(s: string, pat: string, rep: string)
    requires |pat| > 0 && OccursAt(pat, s, 0)
    ensures Replace(s, pat, rep) == rep + Replace(s[|pat|..], pat, rep)
  {
    assert s[..|pat|] == pat;
  }

  /** Moving the first character of `s` back into its prefix. */
  lemma Regroup(s: string, i: nat, rep: string, rest: string)
    requires 0 < i <= |s|
    ensures [s[0]] + (s[1..][..i - 1] + rep + rest) == s[..i] + rep + rest
  {
    assert s[..i] == [s[0]] + s[1..][..i - 1];
  }

  /** Where `pat` does not start `s`, `replace` keeps the first character. */
  lemma ReplaceSkipsNonMatch(s: string, pat: string, rep: string)
    requires |pat| > 0 && |s| >= |pat| && !OccursAt(pat, s, 0)
    ensures Replace(s, pat, rep) == [s[0]] + Replace(s[1..], pat, rep)
  {
    assert s[..|pat|] != pat;
  }

  /** The first occurrence at `i > 0` in `s` is the first, at `i - 1`, in its tail. */
  lemma TailOccurrence(s: string, pat: string, i: nat)
    requires 0 < i && OccursAt(pat, s, i)
    requires forall j :: 0 <= j < i ==> !OccursAt(pat, s, j)
    ensures OccursAt(pat, s[1..], i - 1)
    ensures forall j :: 0 <= j < i - 1 ==> !OccursAt(pat, s[1..], j)
  {
    var t := s[1..];
    assert t[i - 1..i - 1 + |pat|] == s[i..i + |pat|];
    forall j | 0 <= j < i - 1
      ensures !OccursAt(pat, t, j)
    {
      assert !OccursAt(pat, s, j + 1);
      assert t[j..j + |pat|] == s[j + 1..j + 1 + |pat|];
    }
  }

  /** A name that ends in `.mp3`, and holds no other `.mp3`, ends in `.txt` once
      `.mp3` is replaced by `.txt`. */
  lemma {:induction false} ReplaceMp3Suffix(stem: string)
    requires !Occurs(".mp3", stem)
    ensures Replace(stem + ".mp3", ".mp3", ".txt") == stem + ".txt"
    decreases |stem|
  {
    var s := stem + ".mp3";
    if stem == [] {
      assert s[..4] == ".mp3";
      assert s[4..] == [];
    } else {
      assert s[..4] != ".mp3" by {
        if |stem| >= 4 {
          assert s[..4] == stem[0..4];
          assert !OccursAt(".mp3", stem, 0);
        } else {
          assert s[..4][|stem|] == '.';
          assert ".mp3"[|stem|] != '.';
        }
      }
      NotOccursInTail(".mp3", stem);
      assert s[1..] == stem[1..] + ".mp3";
      ReplaceMp3Suffix(stem[1..]);
      ReplaceAbsent(stem, ".mp3", ".txt");
    }
  }

  /** The basename of a path whose last component is `name` is `name`. */
  lemma {:induction false} BasenameOfLastComponent(dir: string, name: string)
    requires '/' !in name
    requires dir == [] || dir[|dir| - 1] == '/'
    ensures Basename(dir + name) == name
    decreases |name|
  {
    if name != [] {
      var p := dir + name;
      var init, last := name[..|name| - 1], name[|name| - 1];
      assert name == init + [last];
      assert last in name;
      assert '/' !in init by {
        forall c | c in init ensures c != '/' { assert c in name; }
      }
      assert p[|p| - 1] == last;
      assert p[..|p| - 1] == dir + init;
      BasenameOfLastComponent(dir, init);
      assert Basename(p) == Basename(dir + init) + [last];
    }
  }
}
