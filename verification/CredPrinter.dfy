/** A printer of status texts, and the proof that parsing undoes it. */
module CredPrinter {
  import opened Wrappers
  import opened Ascii
  import opened Numerals
  import opened CredSpec
  import opened Cred

  /** The ids of a process as the kernel knows them. */
  datatype Ids = Ids(ruid: nat, effective: nat, saved: nat, fs: nat)
  {
    predicate Fits() {
      ruid < TWO_32 && effective < TWO_32 && saved < TWO_32 && fs < TWO_32
    }
  }

  /** Lines about other things, before, between and after the four lines that matter. */
  datatype Others = Others(l0: seq<string>, l1: seq<string>, l2: seq<string>, l3: seq<string>, l4: seq<string>)
  {
    ghost predicate Unrelated() {
      Silent(l0) && Silent(l1) && Silent(l2) && Silent(l3) && Silent(l4)
    }
  }

  ghost predicate Silent(lines: seq<string>) {
    forall i :: 0 <= i < |lines| ==> '\n' !in lines[i] && forall k :: ValueOf(lines[i], k).None?
  }

  // The printer

  function Text(lines: seq<string>): string {
    if lines == [] then "" else lines[0] + "\n" + Text(lines[1..])
  }

  function KeyLine(k: Key, value: string): string {
    KeyName(k) + ":" + value
  }

  function Tabbed(words: seq<string>): string {
    if words == [] then "" else "\t" + words[0] + Tabbed(words[1..])
  }

  function Spaced(words: seq<string>): string {
    if words == [] then "" else words[0] + " " + Spaced(words[1..])
  }

  function IdWords(ids: Ids): seq<string> {
    [Decimal(ids.ruid), Decimal(ids.effective), Decimal(ids.saved), Decimal(ids.fs)]
  }

  function Decimals(ns: seq<nat>): (words: seq<string>)
    ensures |words| == |ns|
    ensures forall i :: 0 <= i < |words| ==> words[i] == Decimal(ns[i])
  {
    if ns == [] then [] else Decimals(ns[..|ns| - 1]) + [Decimal(ns[|ns| - 1])]
  }

  function StatusLines(uid: Ids, gid: Ids, gids: seq<nat>, caps: nat, o: Others): seq<string> {
    o.l0 + [KeyLine(Uid, Tabbed(IdWords(uid)))] +
    (o.l1 + [KeyLine(Gid, Tabbed(IdWords(gid)))] +
     (o.l2 + [KeyLine(Groups, "\t" + Spaced(Decimals(gids)))] +
      (o.l3 + [KeyLine(CapEff, "\t" + Hex(caps, 16))] + o.l4)))
  }

  // Lines and keys

  ghost predicate OneLiners(lines: seq<string>) {
    forall i :: 0 <= i < |lines| ==> '\n' !in lines[i]
  }

  lemma {:induction false} LinesOfText(lines: seq<string>)
    requires OneLiners(lines)
    ensures Lines(Text(lines)) == lines
  {
    hide FirstLine, AfterFirstLine;
    if lines != [] {
      var line, rest := lines[0], Text(lines[1..]);
      var s := line + "\n" + rest;
      assert Text(lines) == s;
      assert forall i :: 0 <= i < |line| ==> s[i] == line[i];
      FirstLineIs(s, |line|);
      assert s[..|line|] == line && s[|line| + 1..] == rest;
      LinesOfText(lines[1..]);
      assert Lines(s) == [line] + Lines(rest);
    }
  }

  lemma {:induction false} KeyLineValue(k: Key, value: string)
    ensures ValueOf(KeyLine(k, value), k) == Some(value)
    ensures forall k' :: k' != k ==> ValueOf(KeyLine(k, value), k').None?
  {
    var line, n := KeyLine(k, value), |KeyName(k)|;
    assert forall i :: 0 <= i < n ==> InKey(KeyName(k)[i]);
    RunIs(line, IsSpace, 0);
    assert TrimLeft(line) == line;
    RunIs(line, InKey, n);
    assert line[..n] == KeyName(k) && line[n + 1..] == value;
    assert ParseLine(line) == Some(Field(KeyName(k), value));
    forall k' | k' != k ensures ValueOf(line, k').None? {
      if ValueOf(line, k').Some? {
        OneKey(line, k, k');
      }
    }
  }

  /** Silent lines hide nothing behind them. */
  lemma {:induction false} FirstValueAfter(silent: seq<string>, rest: seq<string>, k: Key)
    requires Silent(silent)
    ensures FirstValue(silent + rest, k) == FirstValue(rest, k)
  {
    if silent == [] {
      assert silent + rest == rest;
    } else {
      assert (silent + rest)[1..] == silent[1..] + rest;
      FirstValueAfter(silent[1..], rest, k);
    }
  }

  lemma {:induction false} FirstValueIn(silent: seq<string>, k: Key, value: string, rest: seq<string>)
    requires Silent(silent)
    ensures FirstValue(silent + [KeyLine(k, value)] + rest, k) == Some(value)
    ensures forall k' :: k' != k ==> FirstValue(silent + [KeyLine(k, value)] + rest, k') == FirstValue(rest, k')
  {
    var line := KeyLine(k, value);
    var tail := [line] + rest;
    assert silent + [line] + rest == silent + tail;
    assert tail[1..] == rest;
    KeyLineValue(k, value);
    hide ValueOf;
    forall k' ensures FirstValue(silent + tail, k') == FirstValue(tail, k') {
      FirstValueAfter(silent, tail, k');
    }
  }

  lemma {:induction false} StatusValues(uid: Ids, gid: Ids, gids: seq<nat>, caps: nat, o: Others)
    requires o.Unrelated()
    ensures FirstValues(StatusLines(uid, gid, gids, caps, o)) ==
            Values(Some(Tabbed(IdWords(uid))), Some(Tabbed(IdWords(gid))), Some("\t" + Spaced(Decimals(gids))),
              Some("\t" + Hex(caps, 16)))
  {
    hide FirstValue, Silent, KeyLine, Tabbed, Spaced;
    var u, g, gs, c := Tabbed(IdWords(uid)), Tabbed(IdWords(gid)), "\t" + Spaced(Decimals(gids)), "\t" + Hex(caps, 16);
    var r3 := o.l3 + [KeyLine(CapEff, c)] + o.l4;
    var r2 := o.l2 + [KeyLine(Groups, gs)] + r3;
    var r1 := o.l1 + [KeyLine(Gid, g)] + r2;
    FirstValueIn(o.l3, CapEff, c, o.l4);
    FirstValueIn(o.l2, Groups, gs, r3);
    FirstValueIn(o.l1, Gid, g, r2);
    FirstValueIn(o.l0, Uid, u, r1);
  }

  // Words

  ghost predicate AreWords(words: seq<string>) {
    forall i :: 0 <= i < |words| ==> words[i] != "" && forall j :: 0 <= j < |words[i]| ==> InWord(words[i][j])
  }

  lemma {:induction false} WordThen(word: string, rest: string)
    requires AreWords([word])
    requires rest != "" ==> IsSpace(rest[0])
    ensures Words(word + rest) == [word] + Words(rest)
  {
    assert [word][0] == word;
    WordsStep(word + rest, |word|);
    assert (word + rest)[..|word|] == word && (word + rest)[|word|..] == rest;
  }

  lemma {:induction false} SpaceThen(c: char, rest: string)
    requires IsSpace(c)
    ensures Words([c] + rest) == Words(rest)
  {
  }

  lemma {:induction false} TabbedWords(words: seq<string>)
    requires AreWords(words)
    ensures Words(Tabbed(words)) == words
  {
    hide Words;
    if words == [] {
      NoWords("");
    } else {
      var rest := Tabbed(words[1..]);
      assert Tabbed(words) == ['\t'] + (words[0] + rest);
      SpaceThen('\t', words[0] + rest);
      WordThen(words[0], rest);
      TabbedWords(words[1..]);
    }
  }

  lemma {:induction false} SpacedWords(words: seq<string>)
    requires AreWords(words)
    ensures Words(Spaced(words)) == words
  {
    hide Words;
    if words == [] {
      NoWords("");
    } else {
      var rest := Spaced(words[1..]);
      assert Spaced(words) == words[0] + ([' '] + rest);
      WordThen(words[0], [' '] + rest);
      SpaceThen(' ', rest);
      SpacedWords(words[1..]);
    }
  }

  lemma {:induction false} DecimalIsWord(n: nat)
    ensures AreWords([Decimal(n)])
  {
  }

  lemma {:induction false} DecimalParses(n: nat)
    requires n < TWO_32
    ensures ParseUint32(Decimal(n)) == Some(n)
  {
    ReadDecimal(n);
  }

  lemma {:induction false} DecimalsParse(gids: seq<nat>)
    requires forall i :: 0 <= i < |gids| ==> gids[i] < TWO_32
    ensures GroupIds(Decimals(gids)) == gids
  {
    hide ParseUint32, Decimal;
    if gids != [] {
      var front, last := gids[..|gids| - 1], gids[|gids| - 1];
      DecimalsParse(front);
      DecimalParses(last);
      assert Decimals(gids)[..|gids| - 1] == Decimals(front);
      assert gids == front + [last];
    }
  }

  // The round trip

  lemma {:induction false} IdsRoundTrip(ids: Ids)
    requires ids.Fits()
    ensures SecondOfFour(Words(Tabbed(IdWords(ids)))) == Some(ids.effective)
  {
    assert AreWords(IdWords(ids)) by {
      DecimalIsWord(ids.ruid); DecimalIsWord(ids.effective); DecimalIsWord(ids.saved); DecimalIsWord(ids.fs);
    }
    TabbedWords(IdWords(ids));
    DecimalParses(ids.effective);
  }

  lemma {:induction false} GroupsRoundTrip(gids: seq<nat>)
    requires forall i :: 0 <= i < |gids| ==> gids[i] < TWO_32
    ensures GroupIds(Words("\t" + Spaced(Decimals(gids)))) == gids
  {
    hide GroupIds, Words;
    SpaceThen('\t', Spaced(Decimals(gids)));
    assert AreWords(Decimals(gids)) by {
      forall i | 0 <= i < |gids| ensures AreWords([Decimals(gids)[i]]) {
        DecimalIsWord(gids[i]);
      }
    }
    SpacedWords(Decimals(gids));
    DecimalsParse(gids);
  }

  lemma {:induction false} CapsRoundTrip(caps: nat)
    requires caps <= U64_MAX
    ensures OnlyWord(Words("\t" + Hex(caps, 16))) == Some(caps)
  {
    hide Words;
    var word := Hex(caps, 16);
    SpaceThen('\t', word);
    WordThen(word, "");
    NoWords("");
    assert word + "" == word;
    ReadHex(caps);
  }

  /**
   * Parsing undoes printing: the status text of a process gives back its effective ids, its
   * supplementary groups in order, and its effective capabilities, whatever else the text tells.
   */
  lemma {:induction false} RoundTrip(uid: Ids, gid: Ids, gids: seq<nat>, caps: nat, o: Others)
    requires uid.Fits() && gid.Fits() && caps <= U64_MAX && o.Unrelated()
    requires forall i :: 0 <= i < |gids| ==> gids[i] < TWO_32
    ensures var v := FirstValues(Lines(Text(StatusLines(uid, gid, gids, caps, o))));
      v.Euid() == Some(uid.effective) && v.Egid() == Some(gid.effective) && v.Gids() == Some(gids)
        && v.EffectiveCaps() == Some(caps)
  {
    var lines := StatusLines(uid, gid, gids, caps, o);
    NoNewlines(uid, gid, gids, caps, o);
    LinesOfText(lines);
    StatusValues(uid, gid, gids, caps, o);
    hide *;
    IdsRoundTrip(uid);
    IdsRoundTrip(gid);
    GroupsRoundTrip(gids);
    CapsRoundTrip(caps);
  }

  lemma {:induction false} TabbedInLine(words: seq<string>)
    requires AreWords(words)
    ensures '\n' !in Tabbed(words) && '\n' !in Spaced(words)
  {
    if words != [] {
      TabbedInLine(words[1..]);
    }
  }

  lemma {:induction false} OneLine(silent: seq<string>, line: string, rest: seq<string>)
    requires Silent(silent) && '\n' !in line && OneLiners(rest)
    ensures OneLiners(silent + [line] + rest)
  {
  }

  lemma {:induction false} KeyLineInLine(k: Key, value: string)
    requires '\n' !in value
    ensures '\n' !in KeyLine(k, value)
  {
  }

  lemma {:induction false} NoNewlines(uid: Ids, gid: Ids, gids: seq<nat>, caps: nat, o: Others)
    requires o.Unrelated()
    ensures OneLiners(StatusLines(uid, gid, gids, caps, o))
  {
    hide Silent, OneLiners, Tabbed, Spaced, Decimals, KeyLine, IdWords, Hex;
    ValuesInLine(uid, gid, gids, caps);
    SilentIsOneLiners(o.l4);
    var u, g, gs, c := Tabbed(IdWords(uid)), Tabbed(IdWords(gid)), "\t" + Spaced(Decimals(gids)), "\t" + Hex(caps, 16);
    KeyLineInLine(Uid, u);
    KeyLineInLine(Gid, g);
    KeyLineInLine(Groups, gs);
    KeyLineInLine(CapEff, c);
    var r3 := o.l3 + [KeyLine(CapEff, c)] + o.l4;
    var r2 := o.l2 + [KeyLine(Groups, gs)] + r3;
    var r1 := o.l1 + [KeyLine(Gid, g)] + r2;
    OneLine(o.l3, KeyLine(CapEff, c), o.l4);
    OneLine(o.l2, KeyLine(Groups, gs), r3);
    OneLine(o.l1, KeyLine(Gid, g), r2);
    OneLine(o.l0, KeyLine(Uid, u), r1);
  }

  lemma {:induction false} ValuesInLine(uid: Ids, gid: Ids, gids: seq<nat>, caps: nat)
    ensures '\n' !in Tabbed(IdWords(uid)) && '\n' !in Tabbed(IdWords(gid))
    ensures '\n' !in "\t" + Spaced(Decimals(gids)) && '\n' !in "\t" + Hex(caps, 16)
  {
    hide AreWords, IdWords, Tabbed, Spaced, Decimals, Hex;
    IdsAreWords(uid);
    IdsAreWords(gid);
    DecimalsAreWords(gids);
    TabbedInLine(IdWords(uid));
    TabbedInLine(IdWords(gid));
    TabbedInLine(Decimals(gids));
    HexInLine(caps);
  }

  lemma {:induction false} IdsAreWords(ids: Ids)
    ensures AreWords(IdWords(ids))
  {
  }

  lemma {:induction false} DecimalsAreWords(gids: seq<nat>)
    ensures AreWords(Decimals(gids))
  {
  }

  lemma {:induction false} HexInLine(caps: nat)
    ensures '\n' !in Hex(caps, 16)
  {
  }

  lemma {:induction false} SilentIsOneLiners(lines: seq<string>)
    requires Silent(lines)
    ensures OneLiners(lines)
  {
  }

  /** The walk of da_cred_parse over a printed status text succeeds and gives back what was printed. */
  method ParsePrinted(uid: Ids, gid: Ids, gids: seq<nat>, caps: nat, o: Others, cred: Cred, priv: CredPriv)
    returns (ok: bool)
    requires uid.Fits() && gid.Fits() && caps <= U64_MAX && o.Unrelated()
    requires forall i :: 0 <= i < |gids| ==> gids[i] < TWO_32
    requires cred.IsZero() && priv.groups == null
    modifies cred, priv
    ensures ok
    ensures cred.euid == uid.effective && cred.egid == gid.effective && cred.caps == caps
    ensures CredCaps in cred.flags && CredGroups in cred.flags
    ensures cred.ngroups == |gids|
    ensures if gids == [] then cred.groups == null
            else cred.groups != null && |gids| <= cred.groups.Length && cred.groups[..|gids|] == gids
  {
    RoundTrip(uid, gid, gids, caps, o);
    hide FirstValues, Lines, Text, StatusLines, Words, GroupIds, SecondOfFour, OnlyWord;
    ok := Parse(cred, priv, Text(StatusLines(uid, gid, gids, caps, o)));
  }
}
