/**
 * What a /proc/<pid>/status text says about a process, line by line: the meaning that the pointer
 * walk of da_cred_parse (module Cred) is proved to compute.
 */
module CredSpec {
  import opened Wrappers
  import opened Ascii
  import opened Numerals

  /** The four lines that matter. */
  datatype Key = Uid | Gid | Groups | CapEff

  function KeyName(k: Key): string {
    match k
    case Uid => "Uid"
    case Gid => "Gid"
    case Groups => "Groups"
    case CapEff => "CapEff"
  }

  // Character classes, named so that equal runs are seen to be equal.

  predicate InLine(c: char) { c != '\n' }

  predicate InWord(c: char) { !IsSpace(c) }

  predicate InKey(c: char) { !IsSpace(c) && c != ':' }

  // Lines

  function FirstLine(s: string): string {
    s[..Run(s, InLine)]
  }

  function AfterFirstLine(s: string): (r: string)
    ensures s != "" ==> |r| < |s|
  {
    var n := Run(s, InLine);
    if n < |s| then s[n + 1..] else ""
  }

  /** The text split at newlines; a newline ends a line. */
  function Lines(s: string): seq<string>
    decreases |s|
  {
    if s == "" then [] else [FirstLine(s)] + Lines(AfterFirstLine(s))
  }

  // One line

  datatype Field = Field(key: string, value: string)

  function TrimLeft(s: string): (t: string)
    ensures |t| <= |s|
  {
    s[Run(s, IsSpace)..]
  }

  /** The key is what stands before the first space or colon, and that character must be a colon. */
  function ParseLine(line: string): Option<Field> {
    var t := TrimLeft(line);
    var n := Run(t, InKey);
    if n < |t| && t[n] == ':' then Some(Field(t[..n], t[n + 1..])) else None
  }

  /** Equality of ASCII strings up to case. */
  predicate SameName(s: string, t: string) {
    |s| == |t| && forall i :: 0 <= i < |s| ==> Lower(s[i]) == Lower(t[i])
  }

  /** The value of a line whose key is k. */
  function ValueOf(line: string, k: Key): Option<string> {
    match ParseLine(line)
    case Some(Field(key, value)) => if SameName(KeyName(k), key) then Some(value) else None
    case None => None
  }

  /** The value of the first line whose key is k. */
  function FirstValue(lines: seq<string>, k: Key): Option<string> {
    if lines == [] then None
    else if ValueOf(lines[0], k).Some? then ValueOf(lines[0], k)
    else FirstValue(lines[1..], k)
  }

  // Values

  /** The words of a value. */
  function Words(s: string): seq<string>
    decreases |s|, 1
  {
    WordsOf(TrimLeft(s))
  }

  function WordsOf(t: string): seq<string>
    decreases |t|, 0
  {
    if t == "" || Run(t, InWord) == 0 then [] else [t[..Run(t, InWord)]] + Words(t[Run(t, InWord)..])
  }

  /** A 32-bit number that takes up the whole word. */
  function ParseUint32(word: string): (r: Option<nat>)
    ensures r.Some? ==> r.value < TWO_32
  {
    var (v, end) := Strtoull(word, 0);
    if end == |word| && v < TWO_32 then Some(v) else None
  }

  /** A 64-bit hexadecimal number that takes up the whole word; larger numbers saturate. */
  function ParseUint64(word: string): (r: Option<nat>)
    ensures r.Some? ==> r.value <= U64_MAX
  {
    var (v, end) := Strtoull(word, 16);
    if end == |word| then Some(v) else None
  }

  /** The effective id: the second of exactly four words. */
  function SecondOfFour(words: seq<string>): Option<nat> {
    if |words| == 4 then ParseUint32(words[1]) else None
  }

  /** The capabilities: the only word. */
  function OnlyWord(words: seq<string>): Option<nat> {
    if |words| == 1 then ParseUint64(words[0]) else None
  }

  /** The group ids among the words, in order. */
  function GroupIds(words: seq<string>): (gids: seq<nat>)
    ensures |gids| <= |words|
  {
    if words == [] then [] else
      var last := |words| - 1;
      var g := ParseUint32(words[last]);
      GroupIds(words[..last]) + if g.Some? then [g.value] else []
  }

  // The whole text

  /** The values found for the four keys. */
  datatype Values = Values(uid: Option<string>, gid: Option<string>, groups: Option<string>, caps: Option<string>)
  {
    /** The effective user id, if there is a good Uid line. */
    function Euid(): Option<nat> {
      if uid.Some? then SecondOfFour(Words(uid.value)) else None
    }

    /** The effective group id, if there is a good Gid line. */
    function Egid(): Option<nat> {
      if gid.Some? then SecondOfFour(Words(gid.value)) else None
    }

    /** The supplementary groups, if there is a Groups line. */
    function Gids(): Option<seq<nat>> {
      if groups.Some? then Some(GroupIds(Words(groups.value))) else None
    }

    /** The effective capabilities, if there is a good CapEff line. */
    function EffectiveCaps(): Option<nat> {
      if caps.Some? then OnlyWord(Words(caps.value)) else None
    }

    predicate Complete() {
      uid.Some? && gid.Some? && groups.Some? && caps.Some?
    }
  }

  const NOTHING := Values(None, None, None, None)

  /** Only the first line of each key counts; the order of the lines does not matter. */
  function FirstValues(lines: seq<string>): Values {
    Values(FirstValue(lines, Uid), FirstValue(lines, Gid), FirstValue(lines, Groups), FirstValue(lines, CapEff))
  }

  // The same values found one line at a time

  function LineValues(line: string): Values {
    Values(ValueOf(line, Uid), ValueOf(line, Gid), ValueOf(line, Groups), ValueOf(line, CapEff))
  }

  /** The first key that is still missing and that the line has. */
  function AddValues(st: Values, v: Values): Values {
    if st.uid.None? && v.uid.Some? then st.(uid := v.uid)
    else if st.gid.None? && v.gid.Some? then st.(gid := v.gid)
    else if st.groups.None? && v.groups.Some? then st.(groups := v.groups)
    else if st.caps.None? && v.caps.Some? then st.(caps := v.caps)
    else st
  }

  function AddText(st: Values, s: string): Values
    decreases |s|
  {
    if s == "" then st else AddText(AddValues(st, LineValues(FirstLine(s))), AfterFirstLine(s))
  }

  /** Once all four keys were seen, the rest of the text changes nothing. */
  lemma {:induction false} EarlyExit(st: Values, s: string)
    requires st.Complete()
    ensures AddText(st, s) == st
    decreases |s|
  {
    hide LineValues, FirstLine, AfterFirstLine;
    if s != "" {
      EarlyExit(st, AfterFirstLine(s));
    }
  }

  function Or<T>(x: Option<T>, y: Option<T>): Option<T> {
    if x.Some? then x else y
  }

  function OrValues(v: Values, w: Values): Values {
    Values(Or(v.uid, w.uid), Or(v.gid, w.gid), Or(v.groups, w.groups), Or(v.caps, w.caps))
  }

  /** A line has one key, */
  lemma {:induction false} OneKey(line: string, k1: Key, k2: Key)
    requires ValueOf(line, k1).Some? && ValueOf(line, k2).Some?
    ensures k1 == k2
  {
  }

  /** so the order of the key tests does not matter. */
  lemma {:induction false} AddValuesIsOr(st: Values, line: string)
    ensures AddValues(st, LineValues(line)) == OrValues(st, LineValues(line))
  {
    forall k1, k2 | ValueOf(line, k1).Some? && ValueOf(line, k2).Some? ensures k1 == k2 {
      OneKey(line, k1, k2);
    }
    hide ValueOf;
  }

  lemma {:induction false} FirstValuesCons(line: string, rest: seq<string>)
    ensures FirstValues([line] + rest) == OrValues(LineValues(line), FirstValues(rest))
  {
  }

  lemma {:induction false} AddTextCompletes(st: Values, s: string)
    ensures AddText(st, s) == OrValues(st, FirstValues(Lines(s)))
    decreases |s|
  {
    if s != "" {
      var line, rest := FirstLine(s), AfterFirstLine(s);
      AddValuesIsOr(st, line);
      FirstValuesCons(line, Lines(rest));
      AddTextCompletes(AddValues(st, LineValues(line)), rest);
    }
  }
}
