/**
 * The text framing of a segment file: records are written one per line, each
 * followed by "\n", and read back with Rust's `BufRead::lines`.
 */
module Lines {

  /** The position of the first "\n" in `t`. */
  function NewlineAt(t: string): (i: nat)
    requires '\n' in t
    ensures i < |t| && t[i] == '\n'
    ensures '\n' !in t[..i]
  {
    if t[0] == '\n' then 0
    else
      assert '\n' in t[1..] by { var k :| 0 <= k < |t| && t[k] == '\n'; assert t[1..][k - 1] == '\n'; }
      var j := NewlineAt(t[1..]);
      assert t[1..j + 1] == t[1..][..j];
      1 + j
  }

  /** What `lines()` does to a line it found a "\n" after: drops one
      carriage return in front of that "\n". */
  function StripCr(l: string): (r: string)
    ensures r == l || (l == r + ['\r'])
  {
    if |l| > 0 && l[|l| - 1] == '\r' then l[..|l| - 1] else l
  }

  /** `BufRead::lines`: the lines of `t`, without their "\n" (or "\r\n")
      terminators; a last line with no terminator still counts, and an
      empty text has no lines. */
  function SplitLines(t: string): (ls: seq<string>)
    ensures forall k :: 0 <= k < |ls| ==> '\n' !in ls[k]
    ensures t != [] ==> |ls| > 0
    decreases |t|
  {
    if t == [] then []
    else if '\n' in t then
      var i := NewlineAt(t);
      [StripCr(t[..i])] + SplitLines(t[i + 1..])
    else [t]
  }

  /** The file text for `ls`: every line followed by "\n". */
  function JoinLines(ls: seq<string>): (t: string)
    ensures IsFramed(t)
  {
    if ls == [] then [] else ls[0] + ['\n'] + JoinLines(ls[1..])
  }

  /** A text that ends on a line boundary, so more lines can be appended. */
  predicate IsFramed(t: string) {
    t == [] || t[|t| - 1] == '\n'
  }

  /** A line that `lines()` reads back unchanged once it is written with a
      "\n" after it. */
  predicate IsClean(l: string) {
    '\n' !in l && (l == [] || l[|l| - 1] != '\r')
  }

  /** Writing clean lines and reading them back gives the same lines. */
  lemma {:induction false} SplitJoin(ls: seq<string>)
    requires forall k :: 0 <= k < |ls| ==> IsClean(ls[k])
    ensures SplitLines(JoinLines(ls)) == ls
  {
    if ls != [] {
      SplitCons(ls[0], JoinLines(ls[1..]));
      SplitJoin(ls[1..]);
      assert StripCr(ls[0]) == ls[0];
      assert [ls[0]] + ls[1..] == ls;
    }
  }

  /** A line without "\n" followed by "\n" is read back as the first line. */
  lemma SplitCons(l: string, rest: string)
    requires '\n' !in l
    ensures SplitLines(l + ['\n'] + rest) == [StripCr(l)] + SplitLines(rest)
  {
    var t := l + ['\n'] + rest;
    assert t[|l|] == '\n';
    assert t[..|l|] == l;
    assert NewlineAt(t) == |l|;
    assert t[|l| + 1..] == rest;
  }

  /** The first "\n" of `a` is still the first one once `b` follows. */
  lemma NewlineAtAppend(a: string, b: string)
    requires '\n' in a
    ensures '\n' in a + b && NewlineAt(a + b) == NewlineAt(a)
  {
    var i := NewlineAt(a);
    var t := a + b;
    assert t[i] == '\n';
  }

  /** Appending to a framed text appends its lines: a text that ends on a
      line boundary never glues onto what comes after it. */
  lemma {:induction false} SplitAppend(a: string, b: string)
    requires IsFramed(a)
    ensures SplitLines(a + b) == SplitLines(a) + SplitLines(b)
    decreases |a|
  {
    if a == [] {
      assert a + b == b;
    } else {
      FramedRest(a);
      SplitAppend(a[NewlineAt(a) + 1..], b);
      SplitAppendStep(a, b);
    }
  }

  /** What follows the first line of a non-empty framed text is framed. */
  lemma FramedRest(a: string)
    requires IsFramed(a) && a != []
    ensures '\n' in a && IsFramed(a[NewlineAt(a) + 1..])
  {
    assert a[|a| - 1] == '\n';
    var rest := a[NewlineAt(a) + 1..];
    if rest != [] { assert rest[|rest| - 1] == a[|a| - 1]; }
  }

  /** The step of `SplitAppend`: once the text after the first line keeps
      its lines apart from `b`, so does the whole text. */
  lemma SplitAppendStep(a: string, b: string)
    requires '\n' in a
    requires SplitLines(a[NewlineAt(a) + 1..] + b) == SplitLines(a[NewlineAt(a) + 1..]) + SplitLines(b)
    ensures SplitLines(a + b) == SplitLines(a) + SplitLines(b)
  {
    var i := NewlineAt(a);
    SplitFirst(a, b);
    var x := StripCr(a[..i]);
    assert SplitLines(a) == [x] + SplitLines(a[i + 1..]);
    AppendAssoc([x], SplitLines(a[i + 1..]), SplitLines(b));
  }

  /** The first line of a text with a "\n" is the same whatever follows. */
  lemma SplitFirst(a: string, b: string)
    requires '\n' in a
    ensures SplitLines(a + b) == [StripCr(a[..NewlineAt(a)])] + SplitLines(a[NewlineAt(a) + 1..] + b)
  {
    NewlineAtAppend(a, b);
    var i := NewlineAt(a);
    var t := a + b;
    assert t[..i] == a[..i];
    assert t[i + 1..] == a[i + 1..] + b;
  }

  lemma AppendAssoc<T>(p: seq<T>, q: seq<T>, r: seq<T>)
    ensures p + (q + r) == (p + q) + r
  {
  }

  /** The elements of `s` in the opposite order. */
  function Reverse<T>(s: seq<T>): (r: seq<T>)
    ensures |r| == |s|
    ensures forall k :: 0 <= k < |s| ==> r[k] == s[|s| - 1 - k]
  {
    if s == [] then [] else Reverse(s[1..]) + [s[0]]
  }

  /** Reversing puts an appended element first. */
  lemma ReverseSnoc<T>(s: seq<T>, x: T)
    ensures Reverse(s + [x]) == [x] + Reverse(s)
  {
  }

  /** Reversing a concatenation reverses the order of the two parts. */
  lemma ReverseAppend<T>(a: seq<T>, b: seq<T>)
    ensures Reverse(a + b) == Reverse(b) + Reverse(a)
  {
  }
}
