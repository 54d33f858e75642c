/**
 * da_cred_parse: one walk of a pointer over the status text. The walk is proved to compute
 * CredSpec.FirstValues of its lines, to stay inside the buffer and to terminate.
 */
module Cred {
  import opened Wrappers
  import opened Ascii
  import opened CredSpec

  datatype CredFlag = CredCaps | CredGroups

  /** The bits of the walk's flags variable: PROC_PARSE_<key> and PROC_PARSE_<key>_OK. */
  datatype ParseFlag = Seen(key: Key) | Ok(key: Key)

  const PARSE_ALL: set<ParseFlag> := {Seen(Uid), Seen(Gid), Seen(Groups), Seen(CapEff)}

  /** DACred; groups points into the buffer that CredPriv owns. */
  class Cred {
    var euid: nat
    var egid: nat
    var groups: array?<nat>
    var ngroups: nat
    var caps: nat
    var flags: set<CredFlag>

    constructor ()
      ensures IsZero() && fresh(this)
    {
      euid, egid, groups, ngroups, caps, flags := 0, 0, null, 0, 0, {};
    }

    predicate IsZero()
      reads this
    {
      euid == 0 && egid == 0 && groups == null && ngroups == 0 && caps == 0 && flags == {}
    }
  }

  /** DACredPriv */
  class CredPriv {
    var groups: array?<nat>

    constructor ()
      ensures groups == null
    {
      groups := null;
    }
  }

  // da_cred_match

  /** !g_ascii_strncasecmp(s1, s2, n); the end of a string stands for its NUL. */
  predicate SameUpTo(s1: string, s2: string, n: nat) {
    if n == 0 then true
    else if s1 == "" || s2 == "" then s1 == s2 == ""
    else Lower(s1[0]) == Lower(s2[0]) && SameUpTo(s1[1..], s2[1..], n - 1)
  }

  lemma {:induction false} SameUpToMeaning(key: string, str: string, n: nat)
    requires n <= |str|
    ensures SameUpTo(key, str, n) <==>
            n <= |key| && forall i :: 0 <= i < n ==> Lower(key[i]) == Lower(str[i])
  {
    if n > 0 && key != "" {
      SameUpToMeaning(key[1..], str[1..], n - 1);
      if n <= |key| && forall i :: 0 <= i < n ==> Lower(key[i]) == Lower(str[i]) {
        forall i | 0 <= i < n - 1 ensures Lower(key[1..][i]) == Lower(str[1..][i]) {
          assert Lower(key[i + 1]) == Lower(str[i + 1]);
        }
      }
      if SameUpTo(key, str, n) {
        forall i | 0 <= i < n ensures Lower(key[i]) == Lower(str[i]) {
          assert i > 0 ==> Lower(key[1..][i - 1]) == Lower(str[1..][i - 1]);
        }
      }
    }
  }

  const NUL: char := '\0'

  /** The key is a C string: after a comparison of len characters, key[len] is in it or its NUL. */
  predicate Match(key: string, str: string, len: nat): (same: bool)
    requires len <= |str| && NUL !in key
    ensures same <==> SameName(key, str[..len])
  {
    SameUpToMeaning(key, str, len);
    SameUpTo(key, str, len) && (key + [NUL])[len] == NUL
  }

  // da_cred_parse_values

  /** The rest of the line at start ends at eol. */
  ghost predicate LineEnds(data: string, start: nat, eol: nat) {
    && start <= eol <= |data|
    && (forall i :: start <= i < eol ==> data[i] != '\n')
    && (eol < |data| ==> data[eol] == '\n')
  }

  /** Skipping spaces up to end does not change the words up to end. */
  method SkipSpaces(data: string, start: nat, end: nat) returns (ptr: nat)
    requires start <= end <= |data|
    ensures start <= ptr <= end
    ensures forall i :: start <= i < ptr ==> IsSpace(data[i])
    ensures ptr < end ==> InWord(data[ptr])
    ensures Words(data[start..end]) == Words(data[ptr..end])
  {
    hide Words;
    ptr := start;
    while ptr < end && IsSpace(data[ptr])
      invariant start <= ptr <= end
      invariant forall i :: start <= i < ptr ==> IsSpace(data[i])
    {
      ptr := ptr + 1;
    }
    WordsSkip(data[start..end], ptr - start);
    assert data[start..end][ptr - start..] == data[ptr..end];
  }

  /** The word at start ends at ptr. */
  method SkipWord(data: string, start: nat, end: nat) returns (ptr: nat)
    requires start < end <= |data| && InWord(data[start])
    ensures start < ptr <= end
    ensures Words(data[start..end]) == [data[start..ptr]] + Words(data[ptr..end])
  {
    hide Words;
    ptr := start;
    while ptr < end && !IsSpace(data[ptr])
      invariant start <= ptr <= end
      invariant ptr == start ==> InWord(data[ptr])
      invariant forall i :: start <= i < ptr ==> InWord(data[i])
    {
      ptr := ptr + 1;
    }
    WordsStep(data[start..end], ptr - start);
    assert data[start..end][..ptr - start] == data[start..ptr];
    assert data[start..end][ptr - start..] == data[ptr..end];
  }

  /** The words between two positions, word by word. */
  method ParseWords(data: string, start: nat, eol: nat) returns (vals: seq<string>)
    requires start <= eol <= |data|
    ensures vals == Words(data[start..eol])
  {
    hide Words;
    vals := [];
    ghost var all := Words(data[start..eol]);
    var ptr := SkipSpaces(data, start, eol);
    while ptr < eol
      invariant ptr <= eol
      invariant ptr < eol ==> InWord(data[ptr])
      invariant all == vals + Words(data[ptr..eol])
    {
      var word := ptr;
      ptr := SkipWord(data, word, eol);
      AppendWord(vals, data[word..ptr], Words(data[ptr..eol]));
      vals := vals + [data[word..ptr]];
      ptr := SkipSpaces(data, ptr, eol);
    }
    NoWords(data[ptr..eol]);
  }

  lemma {:induction false} AppendWord(vals: seq<string>, word: string, more: seq<string>)
    ensures vals + ([word] + more) == vals + [word] + more
  {
  }

  ghost function LineEnd(data: string, start: nat): (eol: nat)
    requires start <= |data|
    ensures LineEnds(data, start, eol)
  {
    var n := Run(data[start..], InLine);
    assert forall i :: start <= i < start + n ==> data[i] == data[start..][i - start];
    start + n
  }

  /** The words up to the end of the line, and the position of that end. */
  method ParseValues(data: string, start: nat, ghost end: nat) returns (vals: seq<string>, eol: nat)
    requires LineEnds(data, start, end)
    ensures eol == end
    ensures vals == Words(data[start..end])
  {
    eol := start;
    while eol < |data| && data[eol] != '\n'
      invariant start <= eol <= end
    {
      eol := eol + 1;
    }
    vals := ParseWords(data, start, eol);
  }

  lemma {:induction false} NoWords(s: string)
    requires s == ""
    ensures Words(s) == []
  {
  }

  /** Leading spaces do not change the words. */
  lemma {:induction false} WordsSkip(s: string, n: nat)
    requires n <= |s|
    requires forall i :: 0 <= i < n ==> IsSpace(s[i])
    ensures Words(s) == Words(s[n..])
  {
  }

  /** A word ends where its characters do. */
  lemma {:induction false} WordsStep(s: string, n: nat)
    requires 0 < n <= |s|
    requires forall i :: 0 <= i < n ==> InWord(s[i])
    requires n < |s| ==> !InWord(s[n])
    ensures Words(s) == [s[..n]] + Words(s[n..])
  {
  }

  // da_cred_parse

  ghost predicate Holds(cred: Cred, priv: CredPriv, flags: set<ParseFlag>, v: Values)
    reads cred, priv, priv.groups
  {
    FlagsHold(flags, v) && Says(cred, priv, v)
  }

  /** The credential fields and the groups buffer say what v says. */
  ghost predicate Says(cred: Cred, priv: CredPriv, v: Values)
    reads cred, priv, priv.groups
  {
    && cred.euid == v.Euid().GetOr(0)
    && cred.egid == v.Egid().GetOr(0)
    && cred.caps == v.EffectiveCaps().GetOr(0)
    && (CredCaps in cred.flags <==> v.EffectiveCaps().Some?)
    && (CredGroups in cred.flags <==> v.Gids().Some?)
    && GroupsHold(cred, priv, v)
  }

  ghost predicate FlagsHold(flags: set<ParseFlag>, v: Values) {
    && (Seen(Uid) in flags <==> v.uid.Some?)
    && (Seen(Gid) in flags <==> v.gid.Some?)
    && (Seen(Groups) in flags <==> v.groups.Some?)
    && (Seen(CapEff) in flags <==> v.caps.Some?)
    && (Ok(Uid) in flags <==> v.Euid().Some?)
    && (Ok(Gid) in flags <==> v.Egid().Some?)
  }

  /**
   * The groups buffer has room for every word of the Groups line and starts with the group ids; the
   * credential refers to it only if there are some.
   */
  ghost predicate GroupsHold(cred: Cred, priv: CredPriv, v: Values)
    reads cred, priv, priv.groups
  {
    match v.groups
    case None => priv.groups == null && cred.groups == null && cred.ngroups == 0
    case Some(value) =>
      var words := Words(value);
      var gids := GroupIds(words);
      && cred.ngroups == |gids|
      && cred.groups == (if gids == [] then null else priv.groups)
      && if words == [] then priv.groups == null
         else priv.groups != null && priv.groups.Length == |words| && priv.groups[..|gids|] == gids
  }

  /** The valid ids move to the front of the buffer, in order. */
  method FillGroups(vals: seq<string>, cred: Cred, buf: array<nat>)
    requires buf.Length == |vals| && cred.ngroups == 0
    modifies buf, cred`ngroups
    ensures cred.ngroups == |GroupIds(vals)| <= buf.Length
    ensures buf[..cred.ngroups] == GroupIds(vals)
  {
    hide ParseUint32;
    for i := 0 to |vals|
      invariant cred.ngroups == |GroupIds(vals[..i])| <= i
      invariant buf[..cred.ngroups] == GroupIds(vals[..i])
    {
      assert vals[..i + 1][..i] == vals[..i];
      var g := ParseUint32(vals[i]);
      if g.Some? {
        buf[cred.ngroups] := g.value;
        cred.ngroups := cred.ngroups + 1;
      }
    }
    assert vals[..|vals|] == vals;
  }

  /** The Uid line: real, effective, saved set and file system user ids. */
  method ParseUid(cred: Cred, priv: CredPriv, flags: set<ParseFlag>, data: string, start: nat, ghost end: nat,
                  ghost v: Values)
    returns (flags': set<ParseFlag>, eol: nat)
    requires LineEnds(data, start, end)
    requires Holds(cred, priv, flags, v) && v.uid.None?
    modifies cred`euid
    ensures eol == end
    ensures Holds(cred, priv, flags', v.(uid := Some(data[start..end])))
  {
    hide Words, GroupIds, LineEnds;
    var vals: seq<string>;
    vals, eol := ParseValues(data, start, end);
    flags' := flags + {Seen(Uid)};
    if |vals| == 4 {
      var uid := ParseUint32(vals[1]);
      if uid.Some? {
        flags' := flags' + {Ok(Uid)};
        cred.euid := uid.value;
      }
    }
  }

  /** The Gid line: real, effective, saved set and file system group ids. */
  method ParseGid(cred: Cred, priv: CredPriv, flags: set<ParseFlag>, data: string, start: nat, ghost end: nat,
                  ghost v: Values)
    returns (flags': set<ParseFlag>, eol: nat)
    requires LineEnds(data, start, end)
    requires Holds(cred, priv, flags, v) && v.gid.None?
    modifies cred`egid
    ensures eol == end
    ensures Holds(cred, priv, flags', v.(gid := Some(data[start..end])))
  {
    hide Words, GroupIds, LineEnds;
    var vals: seq<string>;
    vals, eol := ParseValues(data, start, end);
    flags' := flags + {Seen(Gid)};
    if |vals| == 4 {
      var gid := ParseUint32(vals[1]);
      if gid.Some? {
        flags' := flags' + {Ok(Gid)};
        cred.egid := gid.value;
      }
    }
  }

  /** The Groups line: a buffer as long as the line has words, and the valid ids at its front. */
  method ParseGroups(cred: Cred, priv: CredPriv, flags: set<ParseFlag>, data: string, start: nat, ghost end: nat,
                     ghost v: Values)
    returns (flags': set<ParseFlag>, eol: nat)
    requires LineEnds(data, start, end)
    requires Holds(cred, priv, flags, v) && v.groups.None?
    modifies cred`groups, cred`ngroups, cred`flags, priv
    ensures eol == end
    ensures Holds(cred, priv, flags', v.(groups := Some(data[start..end])))
  {
    hide Words, GroupIds, LineEnds;
    var vals: seq<string>;
    vals, eol := ParseValues(data, start, end);
    flags' := flags + {Seen(Groups)};
    cred.flags := cred.flags + {CredGroups};
    if |vals| > 0 {
      var buf := new nat[|vals|];
      priv.groups := buf;
      FillGroups(vals, cred, buf);
      if cred.ngroups > 0 {
        cred.groups := priv.groups;
      }
    }
  }

  /** The CapEff line: the effective capability set. */
  method ParseCapEff(cred: Cred, priv: CredPriv, flags: set<ParseFlag>, data: string, start: nat, ghost end: nat,
                     ghost v: Values)
    returns (flags': set<ParseFlag>, eol: nat)
    requires LineEnds(data, start, end)
    requires Holds(cred, priv, flags, v) && v.caps.None?
    modifies cred`caps, cred`flags
    ensures eol == end
    ensures Holds(cred, priv, flags', v.(caps := Some(data[start..end])))
  {
    hide Words, GroupIds, LineEnds;
    var vals: seq<string>;
    vals, eol := ParseValues(data, start, end);
    flags' := flags + {Seen(CapEff)};
    if |vals| == 1 {
      var caps := ParseUint64(vals[0]);
      if caps.Some? {
        cred.caps := caps.value;
        cred.flags := cred.flags + {CredCaps};
      }
    }
  }

  /** What a value says whose key has this name. */
  function FieldValues(key: string, value: string): Values {
    Values(if SameName("Uid", key) then Some(value) else None,
           if SameName("Gid", key) then Some(value) else None,
           if SameName("Groups", key) then Some(value) else None,
           if SameName("CapEff", key) then Some(value) else None)
  }

  lemma {:induction false} FieldChain(v: Values, key: string, value: string)
    ensures AddValues(v, FieldValues(key, value)) ==
            if v.uid.None? && SameName("Uid", key) then v.(uid := Some(value))
            else if v.gid.None? && SameName("Gid", key) then v.(gid := Some(value))
            else if v.groups.None? && SameName("Groups", key) then v.(groups := Some(value))
            else if v.caps.None? && SameName("CapEff", key) then v.(caps := Some(value))
            else v
  {
  }

  /**
   * The chain of key tests for the key at start and the value after its colon. A key that was seen
   * already, or none of ours, leaves the pointer behind the colon.
   */
  method ParseField(cred: Cred, priv: CredPriv, flags: set<ParseFlag>, data: string, start: nat, keylen: nat,
                    ghost v: Values, ghost eol: nat)
    returns (flags': set<ParseFlag>, ptr: nat, ghost v': Values)
    requires start + keylen < eol <= |data|
    requires LineEnds(data, start + keylen + 1, eol)
    requires Holds(cred, priv, flags, v)
    modifies cred, priv
    ensures start + keylen < ptr <= eol
    ensures Holds(cred, priv, flags', v')
    ensures v' == AddValues(v, FieldValues(data[start..start + keylen], data[start + keylen + 1..eol]))
  {
    assert (Seen(Uid) in flags <==> v.uid.Some?) && (Seen(Gid) in flags <==> v.gid.Some?)
        && (Seen(Groups) in flags <==> v.groups.Some?) && (Seen(CapEff) in flags <==> v.caps.Some?);
    hide *;
    ptr := start + keylen + 1;
    ghost var value := data[ptr..eol];
    var str := data[start..];
    assert str[..keylen] == data[start..start + keylen];
    FieldChain(v, str[..keylen], value);
    if Seen(Uid) !in flags && Match("Uid", str, keylen) {
      v' := v.(uid := Some(value));
      flags', ptr := ParseUid(cred, priv, flags, data, ptr, eol, v);
    } else if Seen(Gid) !in flags && Match("Gid", str, keylen) {
      v' := v.(gid := Some(value));
      flags', ptr := ParseGid(cred, priv, flags, data, ptr, eol, v);
    } else if Seen(Groups) !in flags && Match("Groups", str, keylen) {
      v' := v.(groups := Some(value));
      flags', ptr := ParseGroups(cred, priv, flags, data, ptr, eol, v);
    } else if Seen(CapEff) !in flags && Match("CapEff", str, keylen) {
      v' := v.(caps := Some(value));
      flags', ptr := ParseCapEff(cred, priv, flags, data, ptr, eol, v);
    } else {
      flags' := flags;
      v' := v;
    }
  }

  /** The first line of s is known once its end is. */
  lemma {:induction false} FirstLineIs(s: string, n: nat)
    requires LineEnds(s, 0, n)
    ensures FirstLine(s) == s[..n]
    ensures AfterFirstLine(s) == if n < |s| then s[n + 1..] else ""
  {
  }

  lemma {:induction false} LineValuesSkip(line: string)
    requires line != "" && IsSpace(line[0])
    ensures LineValues(line) == LineValues(line[1..])
  {
    assert TrimLeft(line) == TrimLeft(line[1..]);
    hide TrimLeft, Run, SameName;
  }

  /** A leading space starts no key, so it can be skipped even across lines. */
  lemma {:induction false} SkipSpace(v: Values, s: string)
    requires s != "" && IsSpace(s[0])
    ensures AddText(v, s) == AddText(v, s[1..])
  {
    hide LineValues, AddValues, FirstLine, AfterFirstLine;
    var t := s[1..];
    AddTextStep(v, s);
    if s[0] == '\n' {
      FirstLineIs(s, 0);
      BlankLine(v, "");
    } else if t == "" {
      FirstLineIs(s, 1);
      BlankLine(v, s);
      assert s[..1] == s;
    } else {
      FirstLineSkips(s);
      LineValuesSkip(FirstLine(s));
      AddTextStep(v, t);
    }
  }

  /** A space at the start belongs to the first line. */
  lemma {:induction false} FirstLineSkips(s: string)
    requires s != "" && s[0] != '\n'
    ensures FirstLine(s) != "" && FirstLine(s)[0] == s[0] && FirstLine(s)[1..] == FirstLine(s[1..])
    ensures AfterFirstLine(s) == AfterFirstLine(s[1..])
  {
    var t := s[1..];
    var n := Run(t, InLine);
    FirstLineIs(s, n + 1);
    assert s[..n + 1][1..] == t[..n];
    assert n < |t| ==> s[n + 2..] == t[n + 1..];
  }

  lemma {:induction false} BlankLine(v: Values, line: string)
    requires TrimLeft(line) == ""
    ensures AddValues(v, LineValues(line)) == v
  {
  }

  /** The key of the line at start reaches to colon, and the line to eol. */
  ghost predicate KeyAt(data: string, start: nat, colon: nat, eol: nat) {
    && start <= colon <= eol
    && colon < |data|
    && !IsSpace(data[start])
    && (forall i :: start <= i < colon ==> InKey(data[i]))
    && !InKey(data[colon])
    && LineEnds(data, colon, eol)
  }

  lemma {:induction false} ParseLineAt(data: string, start: nat, colon: nat, eol: nat)
    requires KeyAt(data, start, colon, eol)
    ensures ParseLine(data[start..eol]) ==
            if data[colon] == ':' then Some(Field(data[start..colon], data[colon + 1..eol])) else None
  {
    var line := data[start..eol];
    if colon < eol {
      RunIs(line, IsSpace, 0);
      assert TrimLeft(line) == line;
      RunIs(line, InKey, colon - start);
      assert line[..colon - start] == data[start..colon];
      assert line[colon - start + 1..] == data[colon + 1..eol];
    } else {
      RunIs(line, IsSpace, 0);
      assert TrimLeft(line) == line;
      RunIs(line, InKey, |line|);
    }
  }

  /** What a line adds depends on its key and value only. */
  lemma {:induction false} LineSays(v: Values, line: string)
    ensures AddValues(v, LineValues(line)) ==
            match ParseLine(line) case Some(Field(key, value)) => AddValues(v, FieldValues(key, value)) case None => v
  {
  }

  lemma {:induction false} AddTextStep(v: Values, s: string)
    requires s != ""
    ensures AddText(v, s) == AddText(AddValues(v, LineValues(FirstLine(s))), AfterFirstLine(s))
  {
  }

  lemma {:induction false} AddNothing(v: Values)
    ensures AddText(v, "") == v
  {
  }

  /** What the line at start adds, and where the next one begins. */
  lemma {:induction false} LineAt(v: Values, data: string, start: nat, colon: nat, eol: nat)
    requires KeyAt(data, start, colon, eol)
    ensures AddText(v, data[start..]) ==
      AddText(
        if data[colon] == ':' then AddValues(v, FieldValues(data[start..colon], data[colon + 1..eol])) else v,
        data[if eol < |data| then eol + 1 else eol..])
  {
    hide AddText, AddValues, FieldValues, LineValues, ParseLine;
    var s := data[start..];
    FirstLineIs(s, eol - start);
    assert s[..eol - start] == data[start..eol];
    assert eol < |data| ==> s[eol - start + 1..] == data[eol + 1..];
    assert eol == |data| ==> data[eol..] == "";
    ParseLineAt(data, start, colon, eol);
    LineSays(v, data[start..eol]);
    AddTextStep(v, s);
  }

  /** A last line without a colon and without a newline says nothing. */
  lemma {:induction false} OpenLine(v: Values, s: string)
    requires forall i :: 0 <= i < |s| ==> InKey(s[i])
    ensures AddText(v, s) == v
  {
  }

  lemma {:induction false} InitiallyHolds(cred: Cred, priv: CredPriv)
    requires cred.IsZero() && priv.groups == null
    ensures Holds(cred, priv, {}, NOTHING)
  {
  }

  /** da_cred_parse, for a credential and a private part that the caller has zeroed. */
  method Parse(cred: Cred, priv: CredPriv, data: string) returns (ok: bool)
    requires cred.IsZero() && priv.groups == null
    modifies cred, priv
    ensures Says(cred, priv, FirstValues(Lines(data)))
    ensures ok <==> FirstValues(Lines(data)).Euid().Some? && FirstValues(Lines(data)).Egid().Some?
  {
    hide AddText, LineValues, AddValues, FieldValues, Says, InLine, Lines;
    var flags: set<ParseFlag> := {};
    var ptr := 0;
    ghost var v, all := NOTHING, AddText(NOTHING, data);
    assert data[0..] == data;
    InitiallyHolds(cred, priv);
    AddNothing(v);
    while ptr < |data| && !(PARSE_ALL <= flags)
      invariant ptr <= |data|
      invariant Holds(cred, priv, flags, v)
      invariant AddText(v, data[ptr..]) == all
    {
      ptr := SkipToKey(data, ptr, v);
      if ptr < |data| {
        var start := ptr;
        ptr := SkipKey(data, start);
        if ptr < |data| {
          ghost var eol := LineEnd(data, ptr);
          LineAt(v, data, start, ptr, eol);
          if data[ptr] == ':' {
            flags, ptr, v := ParseField(cred, priv, flags, data, start, ptr - start, v, eol);
          }
          while ptr < |data| && data[ptr] != '\n'
            invariant ptr <= eol
          {
            ptr := ptr + 1;
          }
          if ptr < |data| {
            ptr := ptr + 1;
          }
        } else {
          OpenLine(v, data[start..]);
          AddNothing(v);
        }
      }
    }
    if PARSE_ALL <= flags {
      assert forall k :: Seen(k) in PARSE_ALL ==> Seen(k) in flags;
      EarlyExit(v, data[ptr..]);
    } else {
      assert data[ptr..] == "";
      AddNothing(v);
    }
    assert v == all;
    AddTextCompletes(NOTHING, data);
    assert v == FirstValues(Lines(data));
    ok := Ok(Uid) in flags && Ok(Gid) in flags;
  }

  /** Spaces before a line, and whole blank lines, are skipped. */
  method SkipToKey(data: string, start: nat, ghost v: Values) returns (ptr: nat)
    requires start <= |data|
    ensures start <= ptr <= |data|
    ensures ptr < |data| ==> !IsSpace(data[ptr])
    ensures AddText(v, data[ptr..]) == AddText(v, data[start..])
  {
    hide AddText;
    ptr := start;
    while ptr < |data| && IsSpace(data[ptr])
      invariant start <= ptr <= |data|
      invariant AddText(v, data[ptr..]) == AddText(v, data[start..])
    {
      SkipSpace(v, data[ptr..]);
      assert data[ptr..][1..] == data[ptr + 1..];
      ptr := ptr + 1;
    }
  }

  /** The key at start ends at a space, at a colon or at the end of the text. */
  method SkipKey(data: string, start: nat) returns (ptr: nat)
    requires start < |data|
    ensures start <= ptr <= |data|
    ensures forall i :: start <= i < ptr ==> InKey(data[i])
    ensures ptr < |data| ==> !InKey(data[ptr])
  {
    ptr := start;
    while ptr < |data| && !IsSpace(data[ptr]) && data[ptr] != ':'
      invariant start <= ptr <= |data|
      invariant forall i :: start <= i < ptr ==> InKey(data[i])
    {
      ptr := ptr + 1;
    }
  }
}
