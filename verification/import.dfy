/**
 * The line-continuation joining of `import`: a history line ending in a
 * backslash continues on the next line, and the pieces of one entry are
 * glued together with newlines. The pattern matching that follows the
 * joining is not part of this model.
 */
module Import {
  import opened Lines

  /** A line that continues on the next one. */
  predicate Continues(l: string) {
    |l| > 0 && l[|l| - 1] == '\\'
  }

  /** The state of the joining loop: the entry being assembled, whether
      one is open, and the finished entries. */
  datatype Joiner = Joiner(bunch: string, open: bool, out: seq<string>)

  /** One line: a continued line adds itself without its backslash plus a
      newline to the open entry; any other line closes the open entry, or
      is an entry of its own when none is open. */
  function JoinStep(j: Joiner, line: string): Joiner {
    if Continues(line) then Joiner(j.bunch + line[..|line| - 1] + ['\n'], true, j.out)
    else if j.open then Joiner([], false, j.out + [j.bunch + line])
    else Joiner(j.bunch, false, j.out + [line])
  }

  /** The loop over `lines`, from an empty state. */
  function JoinAll(lines: seq<string>): Joiner
    decreases |lines|
  {
    if lines == [] then Joiner([], false, [])
    else JoinStep(JoinAll(lines[..|lines| - 1]), lines[|lines| - 1])
  }

  /** The entries `import` goes on to match. An entry still open when the
      input ends is never pushed. */
  function JoinContinuations(lines: seq<string>): (entries: seq<string>)
  {
    JoinAll(lines).out
  }

  // ---------------------------------------------------------------------
  // Splitting entries back into lines
  // ---------------------------------------------------------------------

  /** A line without its last character: a continued line without its
      backslash. */
  function Cut(l: string): string {
    if l == [] then [] else l[..|l| - 1]
  }

  /** How an open entry holds the continued lines `ps`. */
  function Glue(ps: seq<string>): string {
    if ps == [] then [] else Cut(ps[0]) + ['\n'] + Glue(ps[1..])
  }

  /** The lines an entry came from: split at each newline, each piece but
      the last given back its backslash. */
  function Pieces(b: string): (r: seq<string>)
    ensures |r| >= 1
    decreases |b|
  {
    if b == [] then [[]]
    else
      var rest := Pieces(b[1..]);
      if b[0] == '\n' then [['\\']] + rest
      else [[b[0]] + rest[0]] + rest[1..]
  }

  /** The lines a sequence of entries came from. */
  function Unjoin(entries: seq<string>): seq<string>
    decreases |entries|
  {
    if entries == [] then [] else Unjoin(entries[..|entries| - 1]) + Pieces(entries[|entries| - 1])
  }

  /** The trailing run of continued lines of `ls`: what is still open. */
  function Pending(ls: seq<string>): (ps: seq<string>)
    ensures forall k :: 0 <= k < |ps| ==> Continues(ps[k])
    decreases |ls|
  {
    if ls == [] || !Continues(ls[|ls| - 1]) then []
    else Pending(ls[..|ls| - 1]) + [ls[|ls| - 1]]
  }

  predicate NoNewlines(ls: seq<string>) {
    forall k :: 0 <= k < |ls| ==> '\n' !in ls[k]
  }

  lemma {:induction false} GlueSnoc(ps: seq<string>, p: string)
    ensures Glue(ps + [p]) == Glue(ps) + Cut(p) + ['\n']
    decreases |ps|
  {
    if ps != [] {
      assert (ps + [p])[1..] == ps[1..] + [p];
      GlueSnoc(ps[1..], p);
    }
  }

  /** Splitting an open entry closed by `x` gives back its lines and `x`. */
  lemma {:induction false} PiecesGlue(ps: seq<string>, x: string)
    requires forall k :: 0 <= k < |ps| ==> Continues(ps[k]) && '\n' !in ps[k]
    requires '\n' !in x
    ensures Pieces(Glue(ps) + x) == ps + [x]
    decreases |ps|
  {
    if ps == [] {
      assert Glue(ps) + x == x;
      PiecesPlain(x);
    } else {
      PiecesGlue(ps[1..], x);
      assert ps == [ps[0]] + ps[1..];
      PiecesGlueStep(ps[0], ps[1..], x);
    }
  }

  lemma PiecesGlueStep(p: string, qs: seq<string>, x: string)
    requires Continues(p) && '\n' !in p
    requires Pieces(Glue(qs) + x) == qs + [x]
    ensures Pieces(Glue([p] + qs) + x) == [p] + qs + [x]
  {
    var c := Cut(p);
    var g := Glue(qs);
    assert ([p] + qs)[0] == p && ([p] + qs)[1..] == qs;
    assert Glue([p] + qs) == (c + ['\n']) + g;
    AppendAssoc(c + ['\n'], g, x);
    CutPlain(p);
    PiecesCons(c, g + x);
    assert c + ['\\'] == p;
    AppendAssoc([p], qs, [x]);
  }

  lemma CutPlain(l: string)
    requires Continues(l) && '\n' !in l
    ensures '\n' !in Cut(l)
  {
    assert forall k :: 0 <= k < |Cut(l)| ==> Cut(l)[k] == l[k];
  }

  /** The first piece of an entry ends at its first newline. */
  lemma {:induction false} PiecesCons(c: string, rest: string)
    requires '\n' !in c
    ensures Pieces(c + ['\n'] + rest) == [c + ['\\']] + Pieces(rest)
    decreases |c|
  {
    var t := c + ['\n'] + rest;
    if c == [] {
      assert t[0] == '\n' && t[1..] == rest;
      assert c + ['\\'] == ['\\'];
    } else {
      assert t[0] == c[0];
      assert t[1..] == c[1..] + ['\n'] + rest;
      assert '\n' !in c[1..] by { assert forall k :: 0 <= k < |c| - 1 ==> c[1..][k] == c[k + 1]; }
      PiecesCons(c[1..], rest);
      assert [c[0]] + (c[1..] + ['\\']) == c + ['\\'];
    }
  }

  /** A line without newlines is one piece. */
  lemma {:induction false} PiecesPlain(l: string)
    requires '\n' !in l
    ensures Pieces(l) == [l]
    decreases |l|
  {
    if l != [] {
      assert '\n' !in l[1..] by { assert forall k :: 0 <= k < |l| - 1 ==> l[1..][k] == l[k + 1]; }
      PiecesPlain(l[1..]);
      assert [l[0]] + l[1..] == l;
    }
  }

  /** The invariant of the joining loop after the lines `ls`: the open
      entry holds the trailing continued lines, and the finished entries
      split back into all lines before them. */
  predicate Holds(j: Joiner, ls: seq<string>) {
    && j.bunch == Glue(Pending(ls))
    && (j.open <==> Pending(ls) != [])
    && Unjoin(j.out) + Pending(ls) == ls
  }

  /** One step of the loop keeps the invariant. */
  lemma StepHolds(j: Joiner, p: seq<string>, l: string)
    requires NoNewlines(p) && '\n' !in l
    requires Holds(j, p)
    ensures Holds(JoinStep(j, l), p + [l])
  {
    if Continues(l) {
      StepContinues(j, p, l);
    } else if j.open {
      StepCloses(j, p, l);
    } else {
      StepAlone(j, p, l);
    }
  }

  /** A continued line joins the open entry. */
  lemma StepContinues(j: Joiner, p: seq<string>, l: string)
    requires Holds(j, p) && Continues(l)
    ensures Holds(JoinStep(j, l), p + [l])
  {
    var ps := Pending(p);
    var ls := p + [l];
    assert ls[..|ls| - 1] == p;
    GlueSnoc(ps, l);
    assert Pending(ls) == ps + [l];
    AppendAssoc(Unjoin(j.out), ps, [l]);
  }

  /** A plain line closes the open entry. */
  lemma StepCloses(j: Joiner, p: seq<string>, l: string)
    requires NoNewlines(p) && '\n' !in l
    requires Holds(j, p) && !Continues(l) && j.open
    ensures Holds(JoinStep(j, l), p + [l])
  {
    var ps := Pending(p);
    var ls := p + [l];
    assert ls[..|ls| - 1] == p;
    assert Pending(ls) == [];
    PendingPlain(p);
    PiecesGlue(ps, l);
    UnjoinSnoc(j.out, j.bunch + l);
    AppendAssoc(Unjoin(j.out), ps, [l]);
  }

  /** A plain line with no entry open is an entry of its own. */
  lemma StepAlone(j: Joiner, p: seq<string>, l: string)
    requires '\n' !in l
    requires Holds(j, p) && !Continues(l) && !j.open
    ensures Holds(JoinStep(j, l), p + [l])
  {
    var ls := p + [l];
    assert ls[..|ls| - 1] == p;
    assert Pending(ls) == [] && Pending(p) == [];
    PiecesPlain(l);
    UnjoinSnoc(j.out, l);
  }

  lemma UnjoinSnoc(entries: seq<string>, b: string)
    ensures Unjoin(entries + [b]) == Unjoin(entries) + Pieces(b)
  {
    assert (entries + [b])[..|entries|] == entries;
  }

  /** The pending lines are lines of `ls`, so they hold no newline either. */
  lemma {:induction false} PendingPlain(ls: seq<string>)
    requires NoNewlines(ls)
    ensures forall k :: 0 <= k < |Pending(ls)| ==> Continues(Pending(ls)[k]) && '\n' !in Pending(ls)[k]
  {
    PendingIsSuffix(ls);
    forall k | 0 <= k < |Pending(ls)| ensures '\n' !in Pending(ls)[k] {
      assert Pending(ls)[k] == ls[|ls| - |Pending(ls)| + k];
    }
  }

  lemma {:induction false} JoinAllInvariant(ls: seq<string>)
    requires NoNewlines(ls)
    ensures Holds(JoinAll(ls), ls)
    decreases |ls|
  {
    if ls != [] {
      var n := |ls| - 1;
      var p := ls[..n];
      assert NoNewlines(p) by {
        forall k | 0 <= k < |p| ensures '\n' !in p[k] { assert p[k] == ls[k]; }
      }
      JoinAllInvariant(p);
      assert ls == p + [ls[n]];
      StepHolds(JoinAll(p), p, ls[n]);
    }
  }

  /** The pending lines are the last lines of `ls`. */
  lemma {:induction false} PendingIsSuffix(ls: seq<string>)
    ensures |Pending(ls)| <= |ls|
    ensures forall k :: 0 <= k < |Pending(ls)| ==> Pending(ls)[k] == ls[|ls| - |Pending(ls)| + k]
    decreases |ls|
  {
    if ls != [] && Continues(ls[|ls| - 1]) {
      PendingIsSuffix(ls[..|ls| - 1]);
    }
  }

  /** Joining loses nothing but a trailing run of continued lines: the
      entries split back into the lines before that run. */
  lemma JoinContinuationsRoundTrip(ls: seq<string>)
    requires NoNewlines(ls)
    ensures Unjoin(JoinContinuations(ls)) + Pending(ls) == ls
    ensures ls == [] || !Continues(ls[|ls| - 1]) ==> Unjoin(JoinContinuations(ls)) == ls
  {
    JoinAllInvariant(ls);
    if ls == [] || !Continues(ls[|ls| - 1]) {
      assert Unjoin(JoinContinuations(ls)) + [] == ls;
    }
  }

  /** Lines that do not end in a backslash are entries of their own, one
      for one, and no entry is left open. */
  lemma {:induction false} JoinPlainLines(ls: seq<string>)
    requires forall k :: 0 <= k < |ls| ==> !Continues(ls[k])
    ensures JoinAll(ls) == Joiner([], false, ls)
    ensures JoinContinuations(ls) == ls
    decreases |ls|
  {
    if ls != [] {
      var p := ls[..|ls| - 1];
      JoinPlainLines(p);
      JoinPlainStep(p, ls[|ls| - 1]);
      assert p + [ls[|ls| - 1]] == ls;
    }
  }

  lemma JoinPlainStep(p: seq<string>, l: string)
    requires JoinAll(p) == Joiner([], false, p)
    requires !Continues(l)
    ensures JoinAll(p + [l]) == Joiner([], false, p + [l])
  {
    assert (p + [l])[..|p|] == p;
  }

  /** A continued line and the line after it make one entry: the first
      without its backslash, a newline, then the second. */
  lemma JoinContinuedPair(a: string, b: string)
    requires Continues(a) && !Continues(b)
    ensures JoinContinuations([a, b]) == [a[..|a| - 1] + ['\n'] + b]
  {
    assert [a, b][..1] == [a] && [a][..0] == [];
    assert JoinAll([a]) == Joiner(a[..|a| - 1] + ['\n'], true, []);
  }

  /** An entry still open at the end of the input is dropped: a last line
      ending in a backslash adds no entry. */
  lemma {:induction false} OpenEntryDropped(ls: seq<string>, l: string)
    requires Continues(l)
    ensures JoinContinuations(ls + [l]) == JoinContinuations(ls)
  {
    assert (ls + [l])[..|ls|] == ls;
  }
}
