/**
 * `fc` over a storage root: the record lines of the current segment
 * newest-first, then of every archive file in descending name order, each
 * read forward, decoded one by one and fed to the fold of `Query`.
 *
 * `QueryAsWritten` is what the tool does; `Query` is the corrected version
 * the rest of the model uses (see `QueryAsWrittenFailsAfterArchive`).
 * `ArchiveTwiceEmptiesArchive` shows what `archive` does when it runs twice
 * under one name, and `ArchiveCheckedTwiceKeepsQuery` what it should do.
 */
module History {
  import opened Wrappers
  import opened Events
  import opened Lines
  import opened EventLog
  import opened QueryEngine

  /** Byte-wise (here: code-point-wise) lexicographic order of file names,
      the order `Vec<PathBuf>::sort` puts the archive files of one
      directory in. */
  predicate Below(a: string, b: string)
    decreases |a|
  {
    if a == [] then b != []
    else b != [] && (a[0] < b[0] || (a[0] == b[0] && Below(a[1..], b[1..])))
  }

  /** No name is below itself. */
  lemma {:induction false} BelowIrreflexive(a: string)
    ensures !Below(a, a)
    decreases |a|
  {
    if a != [] {
      BelowIrreflexive(a[1..]);
    }
  }

  /** `names` is the sorted listing of the archive directory. */
  predicate Lists(names: seq<string>, archives: map<string, string>) {
    && (forall i, j :: 0 <= i < j < |names| ==> Below(names[i], names[j]))
    && (forall k :: 0 <= k < |names| ==> names[k] in archives)
    && (forall q :: q in archives ==> q in names)
  }

  /** The lines of the archives named by `names`, file after file, each
      file read forward. */
  function ArchiveLines(archives: map<string, string>, names: seq<string>): seq<string>
    requires forall k :: 0 <= k < |names| ==> names[k] in archives
  {
    if names == [] then []
    else SplitLines(archives[names[0]]) + ArchiveLines(archives, names[1..])
  }

  /** The record lines in the order `fc` reads them: the current segment
      newest-first (an absent segment reading as empty), then the archives
      from the highest name down. */
  function StreamLines(st: Store, names: seq<string>): seq<string>
    requires forall k :: 0 <= k < |names| ==> names[k] in st.archives
  {
    Reverse(SplitLines(CurrentText(st))) + ArchiveLines(st.archives, Reverse(names))
  }

  /** The events decoded before the first line that does not decode, and
      the error that line raises. */
  datatype Decoded = Decoded(events: seq<Event>, error: Option<Error>)

  /** Decoding stops at the first malformed line: every line before it is
      decoded in order, and a malformed line is reported, never skipped. */
  function DecodePrefix(lines: seq<string>, decode: string -> Option<Event>): (r: Decoded)
    ensures |r.events| <= |lines|
    ensures forall k :: 0 <= k < |r.events| ==> decode(lines[k]) == Some(r.events[k])
    ensures r.error.None? ==> |r.events| == |lines|
    ensures r.error.Some? ==> r.error == Some(CsvError) && |r.events| < |lines| && decode(lines[|r.events|]).None?
  {
    if lines == [] then Decoded([], None)
    else
      match decode(lines[0])
      case None => Decoded([], Some(CsvError))
      case Some(e) =>
        var rest := DecodePrefix(lines[1..], decode);
        Decoded([e] + rest.events, rest.error)
  }

  /** What `fc` prints and whether it fails. */
  datatype Outcome = Outcome(out: seq<OutLine>, error: Option<Error>)

  /** The fold over a line stream. Output is buffered but flushed when the
      buffer is dropped, so on a malformed line what was printed before it
      still comes out, followed by the error. */
  function RunLines(lines: seq<string>, decode: string -> Option<Event>, workdir: Option<string>,
                    start: u64, fetch: Option<u64>): (r: Outcome)
    ensures r.error.None? <==> forall k :: 0 <= k < |lines| ==> decode(lines[k]).Some?
    ensures r.error.Some? ==> r.error == Some(CsvError)
    ensures r.error == DecodePrefix(lines, decode).error
    ensures r.out == Expected(DecodePrefix(lines, decode).events, workdir, start, fetch)
  {
    var d := DecodePrefix(lines, decode);
    Outcome(Fc(d.events, workdir, start, fetch), d.error)
  }

  /** `fc` as the tool has it: opening a missing current segment fails
      before anything is read, so a root whose current segment was just
      archived cannot be queried until the next `add`. */
  function QueryAsWritten(st: Store, names: seq<string>, decode: string -> Option<Event>,
                          workdir: Option<string>, start: u64, fetch: Option<u64>): (r: Outcome)
    requires Lists(names, st.archives)
    ensures st.current.None? ==> r == Outcome([], Some(IoError))
    ensures st.current.Some? ==> r == Query(st, names, decode, workdir, start, fetch)
  {
    if st.current.None? then Outcome([], Some(IoError))
    else RunLines(StreamLines(st, names), decode, workdir, start, fetch)
  }

  /** `fc` with an absent current segment read as an empty one. */
  function Query(st: Store, names: seq<string>, decode: string -> Option<Event>,
                 workdir: Option<string>, start: u64, fetch: Option<u64>): (r: Outcome)
    requires Lists(names, st.archives)
    ensures r.error.None? <==> forall k :: 0 <= k < |StreamLines(st, names)| ==> decode(StreamLines(st, names)[k]).Some?
    ensures r.error.Some? ==> r.error == Some(CsvError)
    ensures r.error == DecodePrefix(StreamLines(st, names), decode).error
    ensures r.out == Expected(DecodePrefix(StreamLines(st, names), decode).events, workdir, start, fetch)
  {
    RunLines(StreamLines(st, names), decode, workdir, start, fetch)
  }

  // ---------------------------------------------------------------------
  // Archiving keeps the query
  // ---------------------------------------------------------------------

  /** Archives whose texts agree on `names` give the same lines. */
  lemma {:induction false} ArchiveLinesFrame(a: map<string, string>, b: map<string, string>, names: seq<string>)
    requires forall k :: 0 <= k < |names| ==> names[k] in a && names[k] in b && a[names[k]] == b[names[k]]
    ensures ArchiveLines(a, names) == ArchiveLines(b, names)
  {
    if names != [] {
      ArchiveLinesFrame(a, b, names[1..]);
    }
  }

  /** Archiving under a name above every existing one (the clock moved
      on) lists the new file first and leaves the stream of record lines
      exactly as it was. */
  lemma ArchiveKeepsStream(st: Store, names: seq<string>, name: string)
    requires Lists(names, st.archives)
    requires st.current.Some? && CleanLines(st.current.value)
    requires forall k :: 0 <= k < |names| ==> Below(names[k], name)
    ensures Lists(names + [name], Archive(st, name).store.archives)
    ensures StreamLines(Archive(st, name).store, names + [name]) == StreamLines(st, names)
  {
    ArchiveListing(st, names, name);
    var after := Archive(st, name).store;
    ArchiveReverses(st, name);
    ReverseSnoc(names, name);
    var rev := Reverse(names);
    ArchiveLinesFrame(after.archives, st.archives, rev);
    ArchiveLinesCons(after.archives, name, rev);
    assert Reverse(SplitLines(CurrentText(after))) == [];
  }

  lemma {:induction false} ArchiveLinesCons(archives: map<string, string>, name: string, names: seq<string>)
    requires name in archives
    requires forall k :: 0 <= k < |names| ==> names[k] in archives
    ensures ArchiveLines(archives, [name] + names) == SplitLines(archives[name]) + ArchiveLines(archives, names)
  {
    assert ([name] + names)[1..] == names;
  }

  /** The order `fc` reads a root in: without archives only the current
      segment, newest line first; the archive with the highest name comes
      right after the current segment, read forward, ahead of the archives
      below it. */
  lemma StreamReadOrder(st: Store, names: seq<string>, name: string)
    requires forall k :: 0 <= k < |names| ==> names[k] in st.archives
    requires name in st.archives
    ensures StreamLines(st, []) == Reverse(SplitLines(CurrentText(st)))
    ensures StreamLines(st, names + [name])
            == Reverse(SplitLines(CurrentText(st))) + (SplitLines(st.archives[name]) + ArchiveLines(st.archives, Reverse(names)))
  {
    assert ArchiveLines(st.archives, Reverse([])) == [];
    ReverseSnoc(names, name);
    ArchiveLinesCons(st.archives, name, Reverse(names));
  }

  /** The new name is not taken yet, and the sorted listing gains it last. */
  lemma ArchiveListing(st: Store, names: seq<string>, name: string)
    requires Lists(names, st.archives)
    requires forall k :: 0 <= k < |names| ==> Below(names[k], name)
    ensures name !in st.archives
    ensures Lists(names + [name], Archive(st, name).store.archives)
  {
    if name in st.archives {
      var k :| 0 <= k < |names| && names[k] == name;
      BelowIrreflexive(name);
    }
  }

  /** So the corrected query gives the same answer before and after
      `archive`. */
  lemma ArchiveKeepsQuery(st: Store, names: seq<string>, name: string, decode: string -> Option<Event>,
                          workdir: Option<string>, start: u64, fetch: Option<u64>)
    requires Lists(names, st.archives)
    requires st.current.Some? && CleanLines(st.current.value)
    requires forall k :: 0 <= k < |names| ==> Below(names[k], name)
    ensures Lists(names + [name], Archive(st, name).store.archives)
    ensures Query(Archive(st, name).store, names + [name], decode, workdir, start, fetch)
            == Query(st, names, decode, workdir, start, fetch)
  {
    ArchiveKeepsStream(st, names, name);
  }

  /** The records of an `add` are the first lines the next query reads,
      the last one added first, ahead of everything that was there before. */
  lemma AddedComesFirst(st: Store, names: seq<string>, events: seq<Event>, encode: Event -> string)
    requires Lists(names, st.archives) && WellFormed(st)
    requires forall e :: IsClean(encode(e))
    ensures Lists(names, Add(st, events, encode).archives)
    ensures StreamLines(Add(st, events, encode), names)
            == Reverse(Encoded(Normalize(events), encode)) + StreamLines(st, names)
  {
    var after := Add(st, events, encode);
    AddAppendsRecords(st, events, encode);
    var before := SplitLines(CurrentText(st));
    var added := Encoded(Normalize(events), encode);
    assert SplitLines(CurrentText(after)) == before + added;
    ReverseAppend(before, added);
    var rest := ArchiveLines(st.archives, Reverse(names));
    assert ArchiveLines(after.archives, Reverse(names)) == rest;
    AppendAssoc(Reverse(added), Reverse(before), rest);
  }

  /** A root holding one command in its current segment and no archives:
      the witness that the tool's own `fc` fails right after `archive` on a
      root it answered a moment before. */
  const LsEvent := Event(100, 1, "/dev/pts/1", Command("ls", "/home"))

  function DecodeLs(l: string): Option<Event> {
    if l == "L" then Some(LsEvent) else None
  }

  const LsRoot := Store(Some("L\n"), map[])

  const LsListing := [Numbered(1, 100, Unknown, "ls")]

  /** Before `archive`, both versions list the command. */
  lemma LsRootAnswers()
    ensures QueryAsWritten(LsRoot, [], DecodeLs, None, 1, None) == Outcome(LsListing, None)
    ensures Query(LsRoot, [], DecodeLs, None, 1, None) == Outcome(LsListing, None)
  {
    LsStream();
    LsDecoded();
    LsExpected();
  }

  lemma LsLines()
    ensures SplitLines("L\n") == ["L"]
  {
    assert NewlineAt("L\n") == 1;
    assert "L\n"[..1] == "L" && "L\n"[2..] == [];
    assert StripCr("L") == "L";
  }

  lemma LsStream()
    ensures StreamLines(LsRoot, []) == ["L"]
  {
    LsLines();
    assert Reverse(["L"]) == ["L"];
  }

  lemma {:induction false} LsDecoded()
    ensures DecodePrefix(["L"], DecodeLs) == Decoded([LsEvent], None)
  {
    assert ["L"][1..] == [];
  }

  lemma LsExpected()
    ensures Expected([LsEvent], None, 1, None) == LsListing
  {
    var s := [LsEvent];
    assert IsFirst(s, None, 0);
    assert Firsts(s, None, 0) == [];
    var f := Firsts(s, None, 1);
    assert f == [0];
    assert ExitsBelow(s, 0) == map[];
    EscapeKeepsPlainText("ls");
    assert Listed(s, 0, 1) == Numbered(1, 100, Unknown, "ls");
    var e := ExpectedBelow(s, None, 1, None, 1);
    assert |e| == 1 && e[0] == Listed(s, f[0], 1);
  }

  /** After `archive`, the tool's `fc` fails to open the removed current
      segment, while the corrected query still lists the command. */
  lemma QueryAsWrittenFailsAfterArchive()
    ensures Lists(["a"], Archive(LsRoot, "a").store.archives)
    ensures QueryAsWritten(Archive(LsRoot, "a").store, ["a"], DecodeLs, None, 1, None) == Outcome([], Some(IoError))
    ensures Query(Archive(LsRoot, "a").store, ["a"], DecodeLs, None, 1, None) == Outcome(LsListing, None)
  {
    LsRootAnswers();
    LsLines();
    ArchiveKeepsQuery(LsRoot, [], "a", DecodeLs, None, 1, None);
  }

  // ---------------------------------------------------------------------
  // Archiving twice under one name
  // ---------------------------------------------------------------------

  /** The archive file name has a resolution of one second. Archiving the
      same root twice within that second, with no `add` in between,
      truncates the archive the first call wrote before the second call
      finds the current segment missing: the command is gone from the root
      and no query lists it any more. */
  lemma ArchiveTwiceEmptiesArchive()
    ensures Archive(LsRoot, "a").store.archives["a"] == "L\n"
    ensures Archive(Archive(LsRoot, "a").store, "a") == Archived(EmptiedRoot, Some(IoError))
    ensures Lists(["a"], Archive(Archive(LsRoot, "a").store, "a").store.archives)
    ensures Query(Archive(Archive(LsRoot, "a").store, "a").store, ["a"], DecodeLs, None, 1, None) == Outcome([], None)
  {
    LsArchiveText();
    var once := Archive(LsRoot, "a").store;
    assert once == Store(None, map["a" := "L\n"]);
    assert Archive(once, "a") == Archived(EmptiedRoot, Some(IoError));
    EmptiedRootQuery();
  }

  lemma LsArchiveText()
    ensures ArchiveText("L\n") == "L\n"
  {
    LsLines();
    assert Reverse(["L"]) == ["L"];
    assert JoinLines(["L"]) == "L" + ['\n'] + JoinLines([]);
  }

  /** The root after the second `archive`: no current segment and one
      empty archive. */
  const EmptiedRoot := Store(None, map["a" := []])

  lemma EmptiedRootQuery()
    ensures Lists(["a"], EmptiedRoot.archives)
    ensures Query(EmptiedRoot, ["a"], DecodeLs, None, 1, None) == Outcome([], None)
  {
    assert StreamLines(EmptiedRoot, ["a"]) == [] by {
      assert Reverse(["a"]) == ["a"];
      assert ArchiveLines(EmptiedRoot.archives, ["a"]) == [] + ArchiveLines(EmptiedRoot.archives, []);
    }
    assert DecodePrefix([], DecodeLs) == Decoded([], None);
    assert Expected([], None, 1, None) == [];
  }

  /** With the corrected `archive`, the second call changes nothing, so the
      query after both calls answers as it did before either. */
  lemma ArchiveCheckedTwiceKeepsQuery(st: Store, names: seq<string>, name: string, decode: string -> Option<Event>,
                                      workdir: Option<string>, start: u64, fetch: Option<u64>)
    requires Lists(names, st.archives)
    requires st.current.Some? && CleanLines(st.current.value)
    requires forall k :: 0 <= k < |names| ==> Below(names[k], name)
    ensures ArchiveChecked(ArchiveChecked(st, name).store, name).store == ArchiveChecked(st, name).store
    ensures Lists(names + [name], ArchiveChecked(ArchiveChecked(st, name).store, name).store.archives)
    ensures Query(ArchiveChecked(ArchiveChecked(st, name).store, name).store, names + [name], decode, workdir, start, fetch)
            == Query(st, names, decode, workdir, start, fetch)
  {
    ArchiveKeepsQuery(st, names, name, decode, workdir, start, fetch);
    var once := ArchiveChecked(st, name).store;
    assert once == Archive(st, name).store;
    assert ArchiveChecked(once, name).store == once;
  }
}
