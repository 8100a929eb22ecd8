/**
 * The record types of the event log (`Payload`, `Event`), the error kinds of
 * the tool, and the whitespace trimming applied to command text.
 */
module Events {

  /** Rust's `u64`: timestamps, per-terminal indices and sequence numbers. */
  type u64 = x: int | 0 <= x < 0x1_0000_0000_0000_0000

  /** Rust's `u32`: exit codes. */
  type u32 = x: int | 0 <= x < 0x1_0000_0000

  /** What happened in a terminal. */
  datatype Payload =
    | Start
    | Command(text: string, workdir: string)
    | ExitCode(code: u32)

  /** One record of the log. `(terminal, idx)` names a command slot; an
      `ExitCode` event resolves the `Command` event with the same slot. */
  datatype Event = Event(timestamp: u64, idx: u64, terminal: string, payload: Payload)

  /** The failures the modelled operations can report. The environment
      variable error of the command-line layer is not part of this model. */
  datatype Error =
    | IoError        // a file could not be opened, created or removed
    | CsvError       // a record line does not decode (the tool's name for serde_json's error)
    | InvalidParams  // a flag combination that names no payload

  /** The characters with the Unicode White_Space property, which is what
      Rust's `char::is_whitespace` (and so `str::trim`) tests. */
  const WhiteSpace: set<char> := {
    '\U{0009}', '\U{000A}', '\U{000B}', '\U{000C}', '\U{000D}', ' ',
    '\U{0085}', '\U{00A0}', '\U{1680}',
    '\U{2000}', '\U{2001}', '\U{2002}', '\U{2003}', '\U{2004}', '\U{2005}',
    '\U{2006}', '\U{2007}', '\U{2008}', '\U{2009}', '\U{200A}',
    '\U{2028}', '\U{2029}', '\U{202F}', '\U{205F}', '\U{3000}'
  }

  predicate IsWhitespace(c: char) {
    c in WhiteSpace
  }

  /** Every character of `s` is whitespace. */
  predicate AllWhitespace(s: string) {
    forall k :: 0 <= k < |s| ==> IsWhitespace(s[k])
  }

  /** Neither end of `s` is whitespace. */
  predicate IsTrimmed(s: string) {
    s == [] || (!IsWhitespace(s[0]) && !IsWhitespace(s[|s| - 1]))
  }

  /** The first position at or after `i` that does not hold whitespace
      (`|s|` when there is none): where `str::trim_start` starts cutting
      from position `i` on. */
  function SkipFrom(s: string, i: nat): (r: nat)
    requires i <= |s|
    ensures i <= r <= |s|
    ensures forall k :: i <= k < r ==> IsWhitespace(s[k])
    ensures r < |s| ==> !IsWhitespace(s[r])
    decreases |s| - i
  {
    if i < |s| && IsWhitespace(s[i]) then SkipFrom(s, i + 1) else i
  }

  /** The end of the text once the whitespace before position `j`, but not
      before `lo`, is cut: what `str::trim_end` keeps. */
  function BackFrom(s: string, lo: nat, j: nat): (r: nat)
    requires lo <= j <= |s|
    ensures lo <= r <= j
    ensures forall k :: r <= k < j ==> IsWhitespace(s[k])
    ensures r > lo ==> !IsWhitespace(s[r - 1])
    decreases j
  {
    if j > lo && IsWhitespace(s[j - 1]) then BackFrom(s, lo, j - 1) else j
  }

  /** How many whitespace characters lead `s`. */
  function LeadWidth(s: string): (n: nat)
    ensures n <= |s|
    ensures forall k :: 0 <= k < n ==> IsWhitespace(s[k])
    ensures n < |s| ==> !IsWhitespace(s[n])
  {
    SkipFrom(s, 0)
  }

  /** `str::trim`: drops whitespace at both ends; the result is empty
      exactly when `s` is all whitespace. */
  function Trim(s: string): (r: string)
    ensures IsTrimmed(r)
    ensures |r| <= |s|
    ensures r == [] <==> AllWhitespace(s)
  {
    var lo := LeadWidth(s);
    var hi := BackFrom(s, lo, |s|);
    assert hi == lo ==> AllWhitespace(s);
    s[lo..hi]
  }

  /** What `Trim` keeps is one slice of `s`, and what it drops on either
      side of that slice is whitespace. */
  lemma {:induction false} TrimKeepsSlice(s: string)
    ensures LeadWidth(s) + |Trim(s)| <= |s|
    ensures Trim(s) == s[LeadWidth(s)..LeadWidth(s) + |Trim(s)|]
    ensures AllWhitespace(s[..LeadWidth(s)])
    ensures AllWhitespace(s[LeadWidth(s) + |Trim(s)|..])
  {
    var lo := LeadWidth(s);
    var hi := BackFrom(s, lo, |s|);
    assert Trim(s) == s[lo..hi];
    assert |Trim(s)| == hi - lo;
    forall k | 0 <= k < |s| - hi ensures IsWhitespace(s[hi..][k]) {
      assert s[hi..][k] == s[hi + k];
    }
  }

  /** Trimming a trimmed text changes nothing, so trimming twice is trimming once. */
  lemma {:induction false} TrimIdempotent(s: string)
    ensures Trim(Trim(s)) == Trim(s)
  {
    var t := Trim(s);
    assert LeadWidth(t) == 0;
    assert BackFrom(t, 0, |t|) == |t|;
    assert t[0..|t|] == t;
  }
}
