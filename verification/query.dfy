/**
 * The `fc` query: one fold over the merged event stream (current segment
 * newest-first, then each archive in descending name order, read forward)
 * that keeps an exit-code map keyed by command slot, the set of command
 * texts already handled, and the running sequence number.
 *
 * `Fc` is the fold as the tool runs it; `Expected` is an independent
 * description of its output, and `Fc` carries the proof that the two are equal.
 */
module QueryEngine {
  import opened Wrappers
  import opened Events
  import opened Lines

  /** The command slot an event speaks about. */
  datatype Slot = Slot(terminal: string, idx: u64)

  function SlotOf(e: Event): Slot {
    Slot(e.terminal, e.idx)
  }

  /** A recorded exit status with the time it was recorded. */
  datatype Exit = Exit(code: u32, timestamp: u64)

  type ExitMap = map<Slot, Exit>

  /** The exit-status column of a listed command: blank for a known zero
      exit code, a red `x` for a known non-zero one, a dim blank when no
      exit code is known. */
  datatype Marker = Succeeded | Failed | Unknown

  /** One output line. `Numbered` is display mode: sequence number, time,
      marker and the text with its newlines escaped; `Raw` is fetch mode:
      the command text as stored, followed by "\n". */
  datatype OutLine =
    | Numbered(nr: nat, timestamp: u64, marker: Marker, shown: string)
    | Raw(text: string)

  /** The marker for `slot` given the exit codes recorded so far. */
  function MarkerFor(exits: ExitMap, slot: Slot): Marker {
    if slot !in exits then Unknown
    else if exits[slot].code == 0 then Succeeded
    else Failed
  }

  /** `text.replace("\n", "\\n")`: every newline written as a backslash
      followed by `n`. */
  function Escape(s: string): (r: string)
    ensures '\n' !in r
    ensures |r| >= |s|
  {
    if s == [] then []
    else EscapeChar(s[0]) + Escape(s[1..])
  }

  /** How one character is displayed. */
  function EscapeChar(c: char): string {
    if c == '\n' then ['\\', 'n'] else [c]
  }

  /** `Escape` works character by character: it distributes over
      concatenation, keeps every character but the newline, and leaves a
      text without newlines as it is. */
  lemma {:induction false} EscapeDistributes(a: string, b: string)
    ensures Escape(a + b) == Escape(a) + Escape(b)
    decreases |a|
  {
    if a == [] {
      assert a + b == b;
    } else {
      assert (a + b)[0] == a[0] && (a + b)[1..] == a[1..] + b;
      EscapeDistributes(a[1..], b);
      AppendAssoc(EscapeChar(a[0]), Escape(a[1..]), Escape(b));
    }
  }

  lemma {:induction false} EscapeKeepsPlainText(s: string)
    requires '\n' !in s
    ensures Escape(s) == s
    decreases |s|
  {
    if s != [] {
      EscapeKeepsPlainText(s[1..]);
    }
  }

  /** A newline is displayed as the two characters `\` and `n`. */
  lemma EscapeNewline()
    ensures Escape("\n") == ['\\', 'n']
  {
    assert "\n"[1..] == [];
  }

  /** `Escape` is `replace("\n", "\\n")`: up to the first newline the
      text is kept, that newline becomes `\` `n`, and the rest is escaped
      the same way. Together these fix `Escape` on every text. */
  lemma {:induction false} EscapeReplaces(a: string, b: string)
    requires '\n' !in a
    ensures Escape(a + ['\n'] + b) == a + ['\\', 'n'] + Escape(b)
  {
    EscapeDistributes(a + ['\n'], b);
    EscapeDistributes(a, ['\n']);
    EscapeKeepsPlainText(a);
    EscapeNewline();
  }

  // ---------------------------------------------------------------------
  // The fold
  // ---------------------------------------------------------------------

  /** `filter_func`: whether `e` goes on to `print_func`, and the exit map
      after seeing it. */
  function Filter(exits: ExitMap, e: Event, workdir: Option<string>): (bool, ExitMap) {
    match e.payload
    case Command(_, dir) => (workdir.None? || workdir.value == dir, exits)
    case ExitCode(code) => (false, exits[SlotOf(e) := Exit(code, e.timestamp)])
    case Start => (false, exits)
  }

  /** The state the fold carries. */
  datatype FcState = FcState(exits: ExitMap, seen: set<string>, nr: nat, out: seq<OutLine>)

  /** `print_func` on a command that passed the filter: a text handled
      before changes nothing; otherwise the command is listed (display
      mode) or emitted when its number is the one fetched (fetch mode), and
      either way its text is remembered and the number advances. */
  function Print(st: FcState, e: Event, fetch: Option<u64>): FcState
    requires e.payload.Command?
  {
    var text := e.payload.text;
    if text in st.seen then st
    else
      var line :=
        match fetch
        case None => [Numbered(st.nr, e.timestamp, MarkerFor(st.exits, SlotOf(e)), Escape(text))]
        case Some(n) => if n == st.nr then [Raw(text)] else [];
      FcState(st.exits, st.seen + {text}, st.nr + 1, st.out + line)
  }

  /** One event of the stream: filter, then print if it passed. */
  function Step(st: FcState, e: Event, workdir: Option<string>, fetch: Option<u64>): FcState {
    var (pass, exits) := Filter(st.exits, e, workdir);
    var st' := st.(exits := exits);
    if pass then Print(st', e, fetch) else st'
  }

  /** The fold over `events` (already in stream order) from sequence
      number `start`. The number advances once per text handled, and in
      fetch mode at most one line comes out, and only once its number has
      been reached. */
  function Scan(events: seq<Event>, workdir: Option<string>, start: u64, fetch: Option<u64>): (st: FcState)
    ensures st.nr == start + |st.seen|
    ensures fetch.Some? ==> |st.out| <= 1
    ensures fetch.Some? && |st.out| == 1 ==> start <= fetch.value < st.nr
    decreases |events|
  {
    if events == [] then FcState(map[], {}, start, [])
    else Step(Scan(events[..|events| - 1], workdir, start, fetch), events[|events| - 1], workdir, fetch)
  }

  // ---------------------------------------------------------------------
  // The reference description
  // ---------------------------------------------------------------------

  /** A command the workdir filter lets through. */
  predicate Passes(e: Event, workdir: Option<string>) {
    e.payload.Command? && (workdir.None? || workdir.value == e.payload.workdir)
  }

  /** Event `i` of `s` is the first passing command with its text: no
      earlier passing command in the stream has the same text. */
  predicate IsFirst(s: seq<Event>, workdir: Option<string>, i: int) {
    && 0 <= i < |s|
    && Passes(s[i], workdir)
    && forall j :: 0 <= j < i && Passes(s[j], workdir) ==> s[j].payload.text != s[i].payload.text
  }

  /** The positions below `n` of first passing commands, ascending. */
  function Firsts(s: seq<Event>, workdir: Option<string>, n: nat): (f: seq<nat>)
    requires n <= |s|
    ensures forall k :: 0 <= k < |f| ==> f[k] < n && IsFirst(s, workdir, f[k])
    ensures forall k, m :: 0 <= k < m < |f| ==> f[k] < f[m]
    ensures forall i :: 0 <= i < n && IsFirst(s, workdir, i) ==> i in f
  {
    if n == 0 then []
    else Firsts(s, workdir, n - 1) + (if IsFirst(s, workdir, n - 1) then [n - 1] else [])
  }

  /** The texts of the passing commands below `n`. */
  function PassingTexts(s: seq<Event>, workdir: Option<string>, n: nat): set<string>
    requires n <= |s|
  {
    set j | 0 <= j < n && Passes(s[j], workdir) :: s[j].payload.text
  }

  /** The exit codes recorded by the events below `n`, a later event
      overwriting an earlier one for the same slot. */
  function ExitsBelow(s: seq<Event>, n: nat): ExitMap
    requires n <= |s|
  {
    if n == 0 then map[]
    else
      var m := ExitsBelow(s, n - 1);
      var e := s[n - 1];
      if e.payload.ExitCode? then m[SlotOf(e) := Exit(e.payload.code, e.timestamp)] else m
  }

  /** The display line for the first passing command at `i`, numbered `nr`. */
  function Listed(s: seq<Event>, i: nat, nr: nat): OutLine
    requires i < |s| && s[i].payload.Command?
  {
    Numbered(nr, s[i].timestamp, MarkerFor(ExitsBelow(s, i), SlotOf(s[i])), Escape(s[i].payload.text))
  }

  /** What `fc` prints for the first `n` events of the stream `s`: in
      display mode one line per first passing command, numbered from
      `start` in stream order; in fetch mode the raw text of the first
      passing command whose number is the one asked for, if there is one. */
  function ExpectedBelow(s: seq<Event>, workdir: Option<string>, start: u64, fetch: Option<u64>, n: nat): seq<OutLine>
    requires n <= |s|
  {
    var f := Firsts(s, workdir, n);
    match fetch
    case None => seq(|f|, k requires 0 <= k < |f| => Listed(s, f[k], start + k))
    case Some(want) =>
      if start <= want < start + |f| then [Raw(s[f[want - start]].payload.text)] else []
  }

  function Expected(s: seq<Event>, workdir: Option<string>, start: u64, fetch: Option<u64>): seq<OutLine> {
    ExpectedBelow(s, workdir, start, fetch, |s|)
  }

  // ---------------------------------------------------------------------
  // The fold meets the description
  // ---------------------------------------------------------------------

  /** `st` is the state the description predicts after the first `n`
      events: the exit codes recorded so far, the texts of the passing
      commands so far, one number per first passing command, and the
      expected output. */
  predicate Agrees(st: FcState, s: seq<Event>, workdir: Option<string>, start: u64, fetch: Option<u64>, n: nat)
    requires n <= |s|
  {
    && st.exits == ExitsBelow(s, n)
    && st.seen == PassingTexts(s, workdir, n)
    && st.nr == start + |Firsts(s, workdir, n)|
    && st.out == ExpectedBelow(s, workdir, start, fetch, n)
  }

  /** After the first `n` events the fold's state is the predicted one. */
  lemma {:induction false} ScanInvariant(s: seq<Event>, workdir: Option<string>, start: u64, fetch: Option<u64>, n: nat)
    requires n <= |s|
    ensures Agrees(Scan(s[..n], workdir, start, fetch), s, workdir, start, fetch, n)
  {
    if n > 0 {
      ScanInvariant(s, workdir, start, fetch, n - 1);
      assert s[..n][..n - 1] == s[..n - 1];
      var st := Scan(s[..n - 1], workdir, start, fetch);
      assert Scan(s[..n], workdir, start, fetch) == Step(st, s[n - 1], workdir, fetch);
      StepAgrees(s, workdir, start, fetch, n - 1, st);
    }
  }

  /** One step of the fold keeps its state the predicted one. */
  lemma {:induction false} StepAgrees(s: seq<Event>, workdir: Option<string>, start: u64, fetch: Option<u64>, i: nat, st: FcState)
    requires i < |s| && Agrees(st, s, workdir, start, fetch, i)
    ensures Agrees(Step(st, s[i], workdir, fetch), s, workdir, start, fetch, i + 1)
  {
    if !Passes(s[i], workdir) {
      StepSkips(s, workdir, start, fetch, i, st);
    } else if s[i].payload.text in st.seen {
      StepRepeats(s, workdir, start, fetch, i, st);
    } else {
      StepLists(s, workdir, start, fetch, i, st);
    }
  }

  lemma {:induction false} StepSkips(s: seq<Event>, workdir: Option<string>, start: u64, fetch: Option<u64>, i: nat, st: FcState)
    requires i < |s| && Agrees(st, s, workdir, start, fetch, i)
    requires !Passes(s[i], workdir)
    ensures Agrees(Step(st, s[i], workdir, fetch), s, workdir, start, fetch, i + 1)
  {
    PassingTextsGrow(s, workdir, i);
    FirstsGrow(s, workdir, i);
    ExpectedUnchanged(s, workdir, start, fetch, i);
    StepCases(st, s[i], workdir, fetch);
  }

  lemma {:induction false} StepRepeats(s: seq<Event>, workdir: Option<string>, start: u64, fetch: Option<u64>, i: nat, st: FcState)
    requires i < |s| && Agrees(st, s, workdir, start, fetch, i)
    requires Passes(s[i], workdir) && s[i].payload.text in st.seen
    ensures Agrees(Step(st, s[i], workdir, fetch), s, workdir, start, fetch, i + 1)
  {
    PassingTextsGrow(s, workdir, i);
    FirstsGrow(s, workdir, i);
    assert !IsFirst(s, workdir, i);
    ExpectedUnchanged(s, workdir, start, fetch, i);
    StepCases(st, s[i], workdir, fetch);
  }

  lemma StepLists(s: seq<Event>, workdir: Option<string>, start: u64, fetch: Option<u64>, i: nat, st: FcState)
    requires i < |s| && Agrees(st, s, workdir, start, fetch, i)
    requires Passes(s[i], workdir) && s[i].payload.text !in st.seen
    ensures Agrees(Step(st, s[i], workdir, fetch), s, workdir, start, fetch, i + 1)
  {
    PassingTextsGrow(s, workdir, i);
    FirstsGrow(s, workdir, i);
    assert IsFirst(s, workdir, i);
    match fetch {
      case None => FirstListed(s, workdir, start, i);
      case Some(want) => FirstFetched(s, workdir, start, want, i);
    }
  }

  /** The passing texts gain the text of event `i` when it passes. */
  lemma PassingTextsGrow(s: seq<Event>, workdir: Option<string>, i: nat)
    requires i < |s|
    ensures Passes(s[i], workdir) ==>
              PassingTexts(s, workdir, i + 1) == PassingTexts(s, workdir, i) + {s[i].payload.text}
    ensures !Passes(s[i], workdir) ==> PassingTexts(s, workdir, i + 1) == PassingTexts(s, workdir, i)
  {
  }

  /** An event that is not a first passing command adds nothing to the
      expected output. */
  lemma ExpectedUnchanged(s: seq<Event>, workdir: Option<string>, start: u64, fetch: Option<u64>, i: nat)
    requires i < |s| && Firsts(s, workdir, i + 1) == Firsts(s, workdir, i)
    ensures ExpectedBelow(s, workdir, start, fetch, i + 1) == ExpectedBelow(s, workdir, start, fetch, i)
  {
  }

  /** `Firsts` gains `i` exactly when event `i` is a first passing command. */
  lemma FirstsGrow(s: seq<Event>, workdir: Option<string>, i: nat)
    requires i < |s|
    ensures IsFirst(s, workdir, i) ==> Firsts(s, workdir, i + 1) == Firsts(s, workdir, i) + [i]
    ensures !IsFirst(s, workdir, i) ==> Firsts(s, workdir, i + 1) == Firsts(s, workdir, i)
  {
  }

  /** In display mode, a first passing command at `i` adds its display
      line, numbered after the ones before it. */
  lemma {:induction false} FirstListed(s: seq<Event>, workdir: Option<string>, start: u64, i: nat)
    requires IsFirst(s, workdir, i)
    requires Firsts(s, workdir, i + 1) == Firsts(s, workdir, i) + [i]
    ensures ExpectedBelow(s, workdir, start, None, i + 1)
            == ExpectedBelow(s, workdir, start, None, i) + [Listed(s, i, start + |Firsts(s, workdir, i)|)]
  {
    var f := Firsts(s, workdir, i);
    var f' := Firsts(s, workdir, i + 1);
    var out := ExpectedBelow(s, workdir, start, None, i);
    var out' := ExpectedBelow(s, workdir, start, None, i + 1);
    assert |out'| == |out| + 1;
    forall k | 0 <= k < |out| ensures out'[k] == out[k] {
      assert f'[k] == f[k];
    }
  }

  /** In fetch mode, a first passing command at `i` adds its raw text when
      its number is the one asked for, and nothing otherwise. */
  lemma {:induction false} FirstFetched(s: seq<Event>, workdir: Option<string>, start: u64, want: u64, i: nat)
    requires IsFirst(s, workdir, i)
    requires Firsts(s, workdir, i + 1) == Firsts(s, workdir, i) + [i]
    ensures ExpectedBelow(s, workdir, start, Some(want), i + 1)
            == ExpectedBelow(s, workdir, start, Some(want), i)
               + (if want == start + |Firsts(s, workdir, i)| then [Raw(s[i].payload.text)] else [])
  {
    var f := Firsts(s, workdir, i);
    var f' := Firsts(s, workdir, i + 1);
    if start <= want < start + |f| {
      assert f'[want - start] == f[want - start];
    } else if want == start + |f| {
      assert f'[want - start] == i;
    }
  }

  /** `fc` over an event stream: what the fold prints. */
  function Fc(events: seq<Event>, workdir: Option<string>, start: u64, fetch: Option<u64>): (out: seq<OutLine>)
    ensures out == Expected(events, workdir, start, fetch)
  {
    ScanInvariant(events, workdir, start, fetch, |events|);
    assert events[..|events|] == events;
    Scan(events, workdir, start, fetch).out
  }

  // ---------------------------------------------------------------------
  // Properties of the output
  // ---------------------------------------------------------------------

  /** Display mode lists the first passing commands in stream order
      (newest first), numbered consecutively from `start`, and no two listed
      lines come from commands with the same text. */
  lemma {:induction false} ListedOncePerText(s: seq<Event>, workdir: Option<string>, start: u64)
    ensures |Fc(s, workdir, start, None)| == |Firsts(s, workdir, |s|)|
    ensures forall k :: 0 <= k < |Fc(s, workdir, start, None)| ==>
              Fc(s, workdir, start, None)[k] == Listed(s, Firsts(s, workdir, |s|)[k], start + k)
    ensures forall k, m :: 0 <= k < m < |Firsts(s, workdir, |s|)| ==>
              Firsts(s, workdir, |s|)[k] < Firsts(s, workdir, |s|)[m]
              && s[Firsts(s, workdir, |s|)[k]].payload.text != s[Firsts(s, workdir, |s|)[m]].payload.text
  {
    DisplayListsFirsts(s, workdir, start);
    FirstsDistinct(s, workdir);
  }

  lemma {:induction false} DisplayListsFirsts(s: seq<Event>, workdir: Option<string>, start: u64)
    ensures |Fc(s, workdir, start, None)| == |Firsts(s, workdir, |s|)|
    ensures forall k :: 0 <= k < |Fc(s, workdir, start, None)| ==>
              Fc(s, workdir, start, None)[k] == Listed(s, Firsts(s, workdir, |s|)[k], start + k)
  {
    assert Fc(s, workdir, start, None) == ExpectedBelow(s, workdir, start, None, |s|);
  }

  /** No two first passing commands share a text. */
  lemma {:induction false} FirstsDistinct(s: seq<Event>, workdir: Option<string>)
    ensures forall k, m :: 0 <= k < m < |Firsts(s, workdir, |s|)| ==>
              s[Firsts(s, workdir, |s|)[k]].payload.text != s[Firsts(s, workdir, |s|)[m]].payload.text
  {
    var f := Firsts(s, workdir, |s|);
    forall k, m | 0 <= k < m < |f| ensures s[f[k]].payload.text != s[f[m]].payload.text {
      assert IsFirst(s, workdir, f[m]) && IsFirst(s, workdir, f[k]);
      assert f[k] < f[m];
    }
  }

  /** First occurrence wins: the text of every passing command is listed,
      by the earliest passing command with that text in the stream (the
      newest one), at or before it. */
  lemma {:induction false} EveryPassingTextListed(s: seq<Event>, workdir: Option<string>, i: nat)
    requires i < |s| && Passes(s[i], workdir)
    ensures exists k :: 0 <= k < |Firsts(s, workdir, |s|)|
              && Firsts(s, workdir, |s|)[k] <= i
              && s[Firsts(s, workdir, |s|)[k]].payload.text == s[i].payload.text
    decreases i
  {
    var f := Firsts(s, workdir, |s|);
    if IsFirst(s, workdir, i) {
      var k :| 0 <= k < |f| && f[k] == i;
    } else {
      var j :| 0 <= j < i && Passes(s[j], workdir) && s[j].payload.text == s[i].payload.text;
      EveryPassingTextListed(s, workdir, j);
    }
  }

  /** Fetch mode numbers commands exactly as display mode does: it prints
      a line exactly when display mode shows a line numbered `want`, and
      that line is the displayed command's text, unescaped. */
  lemma {:induction false} FetchAgreesWithDisplay(s: seq<Event>, workdir: Option<string>, start: u64, want: u64)
    ensures |Fc(s, workdir, start, Some(want))| <= 1
    ensures |Fc(s, workdir, start, Some(want))| == 1 <==> start <= want < start + |Fc(s, workdir, start, None)|
    ensures start <= want < start + |Fc(s, workdir, start, None)| ==>
              && Fc(s, workdir, start, None)[want - start].Numbered?
              && Fc(s, workdir, start, None)[want - start].nr == want
              && Fc(s, workdir, start, Some(want))[0].Raw?
              && Escape(Fc(s, workdir, start, Some(want))[0].text) == Fc(s, workdir, start, None)[want - start].shown
  {
    FetchShape(s, workdir, start, want);
    DisplayShape(s, workdir, start);
  }

  /** What fetch mode prints, in terms of the first passing commands. */
  lemma {:induction false} FetchShape(s: seq<Event>, workdir: Option<string>, start: u64, want: u64)
    ensures var f := Firsts(s, workdir, |s|);
            Fc(s, workdir, start, Some(want))
            == if start <= want < start + |f| then [Raw(s[f[want - start]].payload.text)] else []
  {
  }

  /** What display mode prints, in terms of the first passing commands. */
  lemma {:induction false} DisplayShape(s: seq<Event>, workdir: Option<string>, start: u64)
    ensures |Fc(s, workdir, start, None)| == |Firsts(s, workdir, |s|)|
    ensures forall k :: 0 <= k < |Fc(s, workdir, start, None)| ==>
              && Fc(s, workdir, start, None)[k].Numbered?
              && Fc(s, workdir, start, None)[k].nr == start + k
              && Fc(s, workdir, start, None)[k].shown == Escape(s[Firsts(s, workdir, |s|)[k]].payload.text)
  {
    ListedOncePerText(s, workdir, start);
  }

  /** The event at `j` records an exit code for `slot`. */
  predicate RecordsExit(e: Event, slot: Slot) {
    e.payload.ExitCode? && SlotOf(e) == slot
  }

  /** The exit map after the first `n` events knows `slot` exactly when
      one of them recorded an exit code for it, and then holds the code of
      the last such event. */
  lemma {:induction false} ExitsBelowLastWins(s: seq<Event>, n: nat, slot: Slot)
    requires n <= |s|
    ensures slot in ExitsBelow(s, n) <==> exists j :: 0 <= j < n && RecordsExit(s[j], slot)
    ensures forall j :: 0 <= j < n && RecordsExit(s[j], slot)
                        && (forall m :: j < m < n ==> !RecordsExit(s[m], slot)) ==>
              ExitsBelow(s, n)[slot] == Exit(s[j].payload.code, s[j].timestamp)
  {
    if n > 0 {
      ExitsBelowLastWins(s, n - 1, slot);
    }
  }

  /** The marker of a listed command reflects the exit code recorded for
      its slot by the last such record met before it in the stream: blank
      for zero, `x` otherwise, dim when none was met. */
  lemma ListedMarker(s: seq<Event>, workdir: Option<string>, start: u64, k: nat)
    requires k < |Fc(s, workdir, start, None)|
    ensures Fc(s, workdir, start, None)[k].marker == Unknown <==>
              forall j :: 0 <= j < Firsts(s, workdir, |s|)[k] ==> !RecordsExit(s[j], SlotOf(s[Firsts(s, workdir, |s|)[k]]))
    ensures forall j :: 0 <= j < Firsts(s, workdir, |s|)[k]
                        && RecordsExit(s[j], SlotOf(s[Firsts(s, workdir, |s|)[k]]))
                        && (forall m :: j < m < Firsts(s, workdir, |s|)[k] ==> !RecordsExit(s[m], SlotOf(s[Firsts(s, workdir, |s|)[k]]))) ==>
              (Fc(s, workdir, start, None)[k].marker == Succeeded <==> s[j].payload.code == 0)
  {
    ListedOncePerText(s, workdir, start);
    var i := Firsts(s, workdir, |s|)[k];
    ExitsBelowLastWins(s, i, SlotOf(s[i]));
  }

  /** `filter_func` and `print_func` together: a `Start` changes nothing;
      an `ExitCode` only records its code under its slot; a command the
      workdir filter stops, or whose text was handled before, changes
      nothing. */
  lemma {:induction false} StepCases(st: FcState, e: Event, workdir: Option<string>, fetch: Option<u64>)
    ensures e.payload.Start? ==> Step(st, e, workdir, fetch) == st
    ensures e.payload.ExitCode? ==>
              Step(st, e, workdir, fetch) == st.(exits := st.exits[SlotOf(e) := Exit(e.payload.code, e.timestamp)])
    ensures e.payload.Command? && !Passes(e, workdir) ==> Step(st, e, workdir, fetch) == st
    ensures e.payload.Command? && e.payload.text in st.seen ==> Step(st, e, workdir, fetch) == st
    ensures Passes(e, workdir) && e.payload.text !in st.seen ==>
              Step(st, e, workdir, fetch).nr == st.nr + 1
              && Step(st, e, workdir, fetch).seen == st.seen + {e.payload.text}
  {
  }

  /** `filter_func`: exactly the commands the workdir filter lets through
      go on to `print_func`; an exit code records itself under its slot,
      and no other event touches the exit map. */
  lemma FilterCases(exits: ExitMap, e: Event, workdir: Option<string>)
    ensures Filter(exits, e, workdir).0 <==> Passes(e, workdir)
    ensures e.payload.ExitCode? ==> Filter(exits, e, workdir).1 == exits[SlotOf(e) := Exit(e.payload.code, e.timestamp)]
    ensures !e.payload.ExitCode? ==> Filter(exits, e, workdir).1 == exits
  {
  }

  /** `print_func`: a text handled before changes nothing. A new text is
      remembered and advances the number; display mode adds one line with
      the current number, the marker of the command's slot and the text
      escaped, and fetch mode adds the raw text only when the current
      number is the one asked for. The exit map is never touched. */
  lemma PrintCases(st: FcState, e: Event, fetch: Option<u64>)
    requires e.payload.Command?
    ensures e.payload.text in st.seen ==> Print(st, e, fetch) == st
    ensures e.payload.text !in st.seen ==>
              && Print(st, e, fetch).exits == st.exits
              && Print(st, e, fetch).seen == st.seen + {e.payload.text}
              && Print(st, e, fetch).nr == st.nr + 1
    ensures e.payload.text !in st.seen && fetch.None? ==>
              Print(st, e, fetch).out == st.out + [Numbered(st.nr, e.timestamp, MarkerFor(st.exits, SlotOf(e)), Escape(e.payload.text))]
    ensures e.payload.text !in st.seen && fetch.Some? && fetch.value == st.nr ==>
              Print(st, e, fetch).out == st.out + [Raw(e.payload.text)]
    ensures e.payload.text !in st.seen && fetch.Some? && fetch.value != st.nr ==>
              Print(st, e, fetch).out == st.out
  {
  }

  // ---------------------------------------------------------------------
  // A worked example
  // ---------------------------------------------------------------------

  /** `ls` run in /home (slot 1, exit code 0 recorded at 101), then `ls`
      run in /tmp (slot 2, no exit code), as the stream presents them:
      newest first. */
  const LsTwice: seq<Event> := [
    Event(200, 2, "/dev/pts/1", Command("ls", "/tmp")),
    Event(101, 1, "/dev/pts/1", ExitCode(0)),
    Event(100, 1, "/dev/pts/1", Command("ls", "/home"))
  ]

  /** Unfiltered, the two runs of `ls` give one line, numbered 1, for the
      newer run, whose exit code is unknown: the code recorded for the
      older run's slot is not seen before it. */
  lemma LsTwiceListedOnce()
    ensures Fc(LsTwice, None, 1, None) == [Numbered(1, 200, Unknown, "ls")]
  {
    LsTwiceAfterExit();
    var s := LsTwice;
    assert s[..3] == s && s[..3][..2] == s[..2];
    StepCases(LsAfterExit, s[2], None, None);
  }

  /** The fold's state once the newer `ls` is listed. */
  const LsListed := FcState(map[], {"ls"}, 2, [Numbered(1, 200, Unknown, "ls")])

  /** The fold's state once the older run's exit code has also been read. */
  const LsAfterExit := LsListed.(exits := map[Slot("/dev/pts/1", 1) := Exit(0, 101)])

  lemma LsTwiceFirst()
    ensures Scan(LsTwice[..1], None, 1, None) == LsListed
  {
    var s := LsTwice;
    EscapeKeepsPlainText("ls");
    assert s[..1][..0] == [];
    var z := Scan(s[..1][..0], None, 1, None);
    assert z == FcState(map[], {}, 1, []);
    assert Filter(z.exits, s[0], None) == (true, map[]);
    assert Scan(s[..1], None, 1, None) == Print(z, s[0], None);
  }

  lemma LsTwiceAfterExit()
    ensures Scan(LsTwice[..2], None, 1, None) == LsAfterExit
  {
    LsTwiceFirst();
    var s := LsTwice;
    assert s[..2][..1] == s[..1];
    StepCases(LsListed, s[1], None, None);
  }
}
