/** The string operations the bookmark code relies on, with the semantics of
    the Python built-ins it calls: `str.find`, slicing with negative bounds,
    and splitting a file into lines as `readline`/`readlines` do. */
module Text {

  /** `pat` occurs in `s` starting at index `i`. */
  predicate OccursAt(s: string, pat: string, i: int) {
    0 <= i && i + |pat| <= |s| && s[i..i + |pat|] == pat
  }

  /** `pat` is a substring of `s` (Python: `pat in s`). */
  ghost predicate Occurs(s: string, pat: string) {
    exists i :: OccursAt(s, pat, i)
  }

  /** The lowest index at or after `i` where `pat` occurs, or -1. */
  function FindFrom(s: string, pat: string, i: nat): (r: int)
    requires i <= |s|
    decreases |s| - i
    ensures r == -1 || i <= r <= |s| - |pat|
  {
    if i + |pat| > |s| then -1
    else if s[i..i + |pat|] == pat then i
    else
      assert pat != [];
      FindFrom(s, pat, i + 1)
  }

  /** The scan from `i` stops at an occurrence, and passes over none. */
  lemma {:induction false} FindFromSpec(s: string, pat: string, i: nat)
    requires i <= |s|
    ensures FindFrom(s, pat, i) == -1 || OccursAt(s, pat, FindFrom(s, pat, i))
    ensures forall j :: i <= j && (FindFrom(s, pat, i) == -1 || j < FindFrom(s, pat, i)) ==>
              !OccursAt(s, pat, j)
    decreases |s| - i
  {
    if i + |pat| <= |s| && s[i..i + |pat|] != pat {
      assert pat != [];
      FindFromSpec(s, pat, i + 1);
    }
  }

  /** Python's `s.find(pat)`: the first index of `pat` in `s`, or -1. */
  function Find(s: string, pat: string): (r: int)
    ensures r == -1 || 0 <= r <= |s| - |pat|
  {
    FindFrom(s, pat, 0)
  }

  /** `Find` is -1 exactly when `pat` does not occur in `s`; otherwise it is
      an occurrence with none before it. */
  lemma FindSpec(s: string, pat: string)
    ensures Find(s, pat) == -1 <==> !Occurs(s, pat)
    ensures Find(s, pat) != -1 ==> OccursAt(s, pat, Find(s, pat))
    ensures forall j :: 0 <= j < Find(s, pat) ==> !OccursAt(s, pat, j)
  {
    FindFromSpec(s, pat, 0);
  }

  /** A non-empty pattern can only occur in a text holding its first character. */
  lemma OccursHasHead(s: string, pat: string)
    requires pat != [] && Occurs(s, pat)
    ensures pat[0] in s
  {
    var i :| OccursAt(s, pat, i);
    assert s[i] == s[i..i + |pat|][0];
  }

  /** A one-character pattern occurs exactly where that character is. */
  lemma OccursAtChar(s: string, c: char, i: int)
    ensures OccursAt(s, [c], i) <==> 0 <= i < |s| && s[i] == c
  {
    if 0 <= i < |s| {
      assert s[i..i + 1] == [s[i]];
    }
  }

  /** `Find` of a single character is its first position, or -1 when absent. */
  lemma FindChar(s: string, c: char)
    ensures Find(s, [c]) == -1 <==> c !in s
    ensures Find(s, [c]) != -1 ==>
              0 <= Find(s, [c]) < |s| && s[Find(s, [c])] == c && c !in s[..Find(s, [c])]
  {
    var r := Find(s, [c]);
    FindSpec(s, [c]);
    OccursAtChar(s, c, r);
    if c in s {
      var i :| 0 <= i < |s| && s[i] == c;
      OccursAtChar(s, c, i);
    }
    if r != -1 {
      forall j | 0 <= j < r ensures s[j] != c {
        OccursAtChar(s, c, j);
      }
    }
  }

  /** A first occurrence is what `Find` reports. */
  lemma FindIsFirst(s: string, pat: string, i: int)
    requires OccursAt(s, pat, i)
    requires forall j :: 0 <= j < i ==> !OccursAt(s, pat, j)
    ensures Find(s, pat) == i
  {
    FindSpec(s, pat);
  }

  /** Appending text after a string in which `pat` already occurs does not
      move the first occurrence. */
  lemma FindInPrefix(s: string, t: string, pat: string)
    requires Find(s, pat) != -1
    ensures Find(s + t, pat) == Find(s, pat)
  {
    var r := Find(s, pat);
    FindSpec(s, pat);
    assert (s + t)[r..r + |pat|] == s[r..r + |pat|];
    forall j | 0 <= j < r ensures !OccursAt(s + t, pat, j) {
      assert !OccursAt(s, pat, j);
      assert (s + t)[j..j + |pat|] == s[j..j + |pat|];
    }
    FindIsFirst(s + t, pat, r);
  }

  /** A Python slice index: negative values count from the end, then the
      result is clamped to `0..n`. */
  function SliceBound(x: int, n: nat): (r: nat)
    ensures r <= n
    ensures 0 <= x <= n ==> r == x
    ensures x < 0 && 0 <= x + n ==> r == x + n
  {
    if x < 0 then (if x + n < 0 then 0 else x + n)
    else if x > n then n
    else x
  }

  /** Python's `s[lo:hi]`. */
  function Slice(s: string, lo: int, hi: int): string {
    var a, b := SliceBound(lo, |s|), SliceBound(hi, |s|);
    if a < b then s[a..b] else ""
  }

  /** The length of the first line of a non-empty text: up to and including
      the first newline, or the whole text when it has none. */
  function LineEnd(s: string): (k: nat)
    requires s != []
    ensures 0 < k <= |s|
  {
    var i := Find(s, "\n");
    if i == -1 then |s| else i + 1
  }

  /** The lines of a file's text as `readlines` returns them: every line keeps
      its newline; a last line without one is kept as it is. */
  function Lines(s: string): seq<string>
    decreases |s|
  {
    if s == [] then []
    else
      var k := LineEnd(s);
      [s[..k]] + Lines(s[k..])
  }

  /** The text that writing `ls` one after another produces. */
  function Join(ls: seq<string>): string {
    if ls == [] then "" else ls[0] + Join(ls[1..])
  }

  /** Writing one more line after some lines appends its text. */
  lemma {:induction false} JoinSnoc(ls: seq<string>, l: string)
    ensures Join(ls + [l]) == Join(ls) + l
  {
    if ls != [] {
      assert (ls + [l])[1..] == ls[1..] + [l];
      JoinSnoc(ls[1..], l);
    } else {
      assert Join([l]) == l + Join([]);
    }
  }

  /** A single line as `readline` can return it: not empty, and no newline
      except possibly as its last character. */
  predicate IsLine(l: string) {
    l != [] && '\n' !in l[..|l| - 1]
  }

  predicate Terminated(l: string) {
    l != [] && l[|l| - 1] == '\n'
  }

  /** What `readlines` can return: lines, all but the last terminated. */
  predicate WellFormed(ls: seq<string>) {
    && (forall i :: 0 <= i < |ls| ==> IsLine(ls[i]))
    && (forall i :: 0 <= i < |ls| - 1 ==> Terminated(ls[i]))
  }

  /** In a line, a newline can only be the last character. */
  lemma NoInnerNewline(l: string)
    requires IsLine(l)
    ensures forall j :: 0 <= j < |l| - 1 ==> l[j] != '\n'
  {
    forall j | 0 <= j < |l| - 1 ensures l[j] != '\n' {
      assert l[..|l| - 1][j] == l[j];
    }
  }

  /** The first line of a text is its prefix of length `LineEnd`. */
  lemma FirstLine(s: string)
    requires s != []
    ensures IsLine(s[..LineEnd(s)])
    ensures LineEnd(s) < |s| ==> Terminated(s[..LineEnd(s)])
  {
    var k := LineEnd(s);
    FindChar(s, '\n');
    assert s[..k][..k - 1] == s[..k - 1];
  }

  /** Writing the lines back reproduces the text. */
  lemma {:induction false} JoinLines(s: string)
    ensures Join(Lines(s)) == s
    decreases |s|
  {
    if s != [] {
      var k := LineEnd(s);
      JoinLines(s[k..]);
      assert Lines(s) == [s[..k]] + Lines(s[k..]);
      assert Lines(s)[1..] == Lines(s[k..]);
      assert s == s[..k] + s[k..];
    }
  }

  /** Every text splits into well-formed lines. */
  lemma {:induction false} LinesWellFormed(s: string)
    ensures WellFormed(Lines(s))
    decreases |s|
  {
    if s != [] {
      var k := LineEnd(s);
      FirstLine(s);
      LinesWellFormed(s[k..]);
      var ls := Lines(s);
      assert ls == [s[..k]] + Lines(s[k..]);
      if k == |s| {
        assert Lines(s[k..]) == [];
      }
    }
  }

  /** Reading back well-formed lines that were written out gives the same lines. */
  lemma {:induction false} LinesJoin(ls: seq<string>)
    requires WellFormed(ls)
    ensures Lines(Join(ls)) == ls
  {
    if ls != [] {
      var l, rest := ls[0], ls[1..];
      assert WellFormed(rest);
      LinesJoin(rest);
      var s := Join(ls);
      assert s == l + Join(rest);
      if |ls| > 1 {
        assert Terminated(l);
        FindChar(l, '\n');
        assert Find(l, "\n") == |l| - 1;
        FindInPrefix(l, Join(rest), "\n");
        assert Find(s, "\n") == |l| - 1;
      } else {
        assert Join(rest) == "";
        assert s == l;
        NoInnerNewline(l);
        FindChar(l, '\n');
      }
      assert LineEnd(s) == |l|;
      assert s[..|l|] == l;
      assert s[|l|..] == Join(rest);
    }
  }

  /** Appending one terminated line to a text that is empty or ends with a
      newline adds exactly that line to the text's lines. */
  lemma {:induction false} LinesAppendLine(s: string, t: string)
    requires s == [] || s[|s| - 1] == '\n'
    requires IsLine(t) && Terminated(t)
    ensures Lines(s + t) == Lines(s) + [t]
    decreases |s|
  {
    if s == [] {
      assert s + t == t;
      assert Lines(t) == [t] by {
        FindChar(t, '\n');
        NoInnerNewline(t);
        assert LineEnd(t) == |t|;
        assert t[..|t|] == t && t[|t|..] == [];
      }
    } else {
      var k := LineEnd(s);
      FindChar(s, '\n');
      assert s[|s| - 1] == '\n';
      FindInPrefix(s, t, "\n");
      assert LineEnd(s + t) == k;
      assert (s + t)[..k] == s[..k];
      assert (s + t)[k..] == s[k..] + t;
      LinesAppendLine(s[k..], t);
    }
  }
}
