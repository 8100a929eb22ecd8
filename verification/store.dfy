/**
 * The event-log store of one storage root: `add` normalises a batch of
 * events and appends it to the current segment `db.json`; `archive` rotates
 * the current segment into a new archive file with its lines reversed.
 *
 * Records are abstract: the caller's `encode` stands for the JSON encoder,
 * and archive texts are held already decompressed.
 */
module EventLog {
  import opened Wrappers
  import opened Events
  import opened Lines

  /** The files of a storage root: the current segment (`None` when
      `db.json` does not exist) and the archive directory, mapping each file
      name to its decompressed text. */
  datatype Store = Store(current: Option<string>, archives: map<string, string>)

  /** The text of the current segment, an absent file reading as empty. */
  function CurrentText(st: Store): string {
    st.current.GetOr([])
  }

  /** The first loop of `add`: a command's text is trimmed in place. */
  function TrimmedEvent(e: Event): Event {
    match e.payload
    case Command(text, workdir) => e.(payload := Command(Trim(text), workdir))
    case _ => e
  }

  /** The second loop of `add` skips a command whose trimmed text is empty. */
  predicate IsDropped(e: Event) {
    e.payload.Command? && Trim(e.payload.text) == []
  }

  /** The events `add` writes, in order: every command trimmed, the ones
      that trim to nothing left out. */
  function Normalize(events: seq<Event>): (r: seq<Event>)
    ensures |r| <= |events|
    ensures forall k :: 0 <= k < |r| && r[k].payload.Command? ==>
              r[k].payload.text != [] && IsTrimmed(r[k].payload.text)
  {
    if events == [] then []
    else
      var last := events[|events| - 1];
      Normalize(events[..|events| - 1]) + (if IsDropped(last) then [] else [TrimmedEvent(last)])
  }

  /** The positions in `events` of the events `add` keeps, ascending. */
  function Survivors(events: seq<Event>): (idx: seq<nat>)
    ensures forall k :: 0 <= k < |idx| ==> idx[k] < |events|
  {
    if events == [] then []
    else
      var n := |events| - 1;
      Survivors(events[..n]) + (if IsDropped(events[n]) then [] else [n])
  }

  /** `Normalize` keeps exactly the events that do not trim to an empty
      command, in their original order, each trimmed and otherwise unchanged. */
  lemma {:induction false} NormalizeKeepsOrder(events: seq<Event>)
    ensures var r := Normalize(events);
            var idx := Survivors(events);
            && |idx| == |r|
            && (forall k :: 0 <= k < |idx| ==> r[k] == TrimmedEvent(events[idx[k]]))
            && (forall k, m :: 0 <= k < m < |idx| ==> idx[k] < idx[m])
            && (forall i :: 0 <= i < |events| ==> (i in idx <==> !IsDropped(events[i])))
  {
    SurvivorsMatch(events);
    SurvivorsAscending(events);
    SurvivorsExact(events);
  }

  lemma {:induction false} SurvivorsMatch(events: seq<Event>)
    ensures |Survivors(events)| == |Normalize(events)|
    ensures forall k :: 0 <= k < |Survivors(events)| ==>
              Normalize(events)[k] == TrimmedEvent(events[Survivors(events)[k]])
  {
    if events != [] {
      var n := |events| - 1;
      var p := events[..n];
      SurvivorsMatch(p);
      var idx := Survivors(events);
      var r := Normalize(events);
      forall k | 0 <= k < |idx| ensures r[k] == TrimmedEvent(events[idx[k]]) {
        if k < |Survivors(p)| {
          assert idx[k] == Survivors(p)[k];
          assert p[idx[k]] == events[idx[k]];
          assert r[k] == Normalize(p)[k];
        }
      }
    }
  }

  lemma {:induction false} SurvivorsAscending(events: seq<Event>)
    ensures var idx := Survivors(events);
            forall k, m :: 0 <= k < m < |idx| ==> idx[k] < idx[m]
  {
    if events != [] {
      var n := |events| - 1;
      var p := events[..n];
      SurvivorsAscending(p);
      var idx := Survivors(events);
      assert forall k :: 0 <= k < |Survivors(p)| ==> idx[k] == Survivors(p)[k] && idx[k] < n;
    }
  }

  lemma {:induction false} SurvivorsExact(events: seq<Event>)
    ensures forall i :: 0 <= i < |events| ==> (i in Survivors(events) <==> !IsDropped(events[i]))
  {
    if events != [] {
      var n := |events| - 1;
      var p := events[..n];
      SurvivorsExact(p);
      forall i | 0 <= i < |events| ensures i in Survivors(events) <==> !IsDropped(events[i]) {
        if i < n {
          assert p[i] == events[i];
        }
      }
    }
  }

  /** The lines `encode` gives for `events`. */
  function Encoded(events: seq<Event>, encode: Event -> string): (ls: seq<string>)
    ensures |ls| == |events|
  {
    seq(|events|, k requires 0 <= k < |events| => encode(events[k]))
  }

  /** `add`: appends one line per normalised event to the current segment,
      creating it when absent (even when nothing is left to write). */
  function Add(st: Store, events: seq<Event>, encode: Event -> string): (r: Store)
    ensures r.archives == st.archives
    ensures r.current.Some? && |r.current.value| >= |CurrentText(st)|
    ensures r.current.value[..|CurrentText(st)|] == CurrentText(st)
  {
    var text := CurrentText(st);
    Store(Some(text + JoinLines(Encoded(Normalize(events), encode))), st.archives)
  }

  /** Every line of `t`, as `lines()` reads it, reads back unchanged once
      it is written again with "\n" after it. */
  predicate CleanLines(t: string) {
    var ls := SplitLines(t);
    forall k :: 0 <= k < |ls| ==> IsClean(ls[k])
  }

  /** What `add` and `archive` keep true of a root whose records encode to
      clean lines: the current segment ends on a line boundary and each of
      its lines is clean. */
  predicate WellFormed(st: Store) {
    IsFramed(CurrentText(st)) && CleanLines(CurrentText(st))
  }

  /** After `add`, reading the current segment gives its old lines followed
      by one line per normalised event, and the root stays well formed. */
  lemma AddAppendsRecords(st: Store, events: seq<Event>, encode: Event -> string)
    requires WellFormed(st)
    requires forall e :: IsClean(encode(e))
    ensures SplitLines(Add(st, events, encode).current.value)
            == SplitLines(CurrentText(st)) + Encoded(Normalize(events), encode)
    ensures WellFormed(Add(st, events, encode))
  {
    var ls := Encoded(Normalize(events), encode);
    forall k | 0 <= k < |ls| ensures IsClean(ls[k]) {
      assert ls[k] == encode(Normalize(events)[k]);
    }
    AppendCleanLines(CurrentText(st), ls);
  }

  /** Appending clean lines to a well-formed segment text. */
  lemma AppendCleanLines(text: string, ls: seq<string>)
    requires IsFramed(text) && CleanLines(text)
    requires forall k :: 0 <= k < |ls| ==> IsClean(ls[k])
    ensures SplitLines(text + JoinLines(ls)) == SplitLines(text) + ls
    ensures IsFramed(text + JoinLines(ls)) && CleanLines(text + JoinLines(ls))
  {
    var added := JoinLines(ls);
    SplitAppend(text, added);
    SplitJoin(ls);
    var t := text + added;
    assert IsFramed(t) by {
      if added == [] { assert t == text; } else { assert t[|t| - 1] == added[|added| - 1]; }
    }
    var old_ls := SplitLines(text);
    forall k | 0 <= k < |SplitLines(t)| ensures IsClean(SplitLines(t)[k]) {
      if k < |old_ls| { assert SplitLines(t)[k] == old_ls[k]; }
      else { assert SplitLines(t)[k] == ls[k - |old_ls|]; }
    }
  }

  /** The result of `archive`: the root afterwards and the error, if any. */
  datatype Archived = Archived(store: Store, error: Option<Error>)

  /** The archive text for a current segment: its lines in reverse order,
      each followed by "\n". */
  function ArchiveText(current: string): string {
    JoinLines(Reverse(SplitLines(current)))
  }

  /** `archive` into the archive file `name` (chosen by the caller from the
      clock and host name). The archive file is created first, replacing any
      file of that name; when the current segment is missing the operation
      fails with the new archive left empty, otherwise the current segment
      is removed. */
  function Archive(st: Store, name: string): (r: Archived)
    ensures r.store.archives.Keys == st.archives.Keys + {name}
    ensures forall q :: q in st.archives && q != name ==> r.store.archives[q] == st.archives[q]
    ensures r.store.current.None?
    ensures r.error.None? <==> st.current.Some?
    ensures st.current.None? ==> r.store.archives[name] == [] && r.error == Some(IoError)
    ensures st.current.Some? ==> r.store.archives[name] == ArchiveText(st.current.value)
  {
    match st.current
    case None => Archived(Store(None, st.archives[name := []]), Some(IoError))
    case Some(text) => Archived(Store(None, st.archives[name := ArchiveText(text)]), None)
  }

  /** `archive` as evidently intended: the current segment is opened before
      the archive file is created, so a call without a current segment
      fails and leaves the root as it was, including an archive file that
      already has the name. */
  function ArchiveChecked(st: Store, name: string): (r: Archived)
    ensures r.error.None? <==> st.current.Some?
    ensures st.current.None? ==> r.store == st && r.error == Some(IoError)
    ensures st.current.Some? ==> r == Archive(st, name)
  {
    if st.current.None? then Archived(st, Some(IoError)) else Archive(st, name)
  }

  /** Reading the new archive back gives the current segment's lines in
      reverse order. */
  lemma ArchiveReverses(st: Store, name: string)
    requires st.current.Some? && CleanLines(st.current.value)
    ensures IsFramed(Archive(st, name).store.archives[name])
    ensures SplitLines(Archive(st, name).store.archives[name]) == Reverse(SplitLines(st.current.value))
  {
    var ls := SplitLines(st.current.value);
    SplitJoin(Reverse(ls));
  }
}
