/**
 * What status texts mean, character by character: which words are numbers, which lines have a key,
 * and what the lines of a text say.
 */
module StatusTexts {
  import opened Wrappers
  import opened Ascii
  import opened Numerals
  import opened CredSpec
  import opened ScanLaws
  import opened CredPrinter
  import opened Cred

  // Numbers

  /** The characters that count as digits, with their values. */
  lemma {:induction false} DigitValueIs(c: char, d: nat)
    requires d < 16
    ensures DigitValue(c) == d <==> c == "0123456789abcdef"[d] || c == "0123456789ABCDEF"[d]
  {
  }

  predicate AllIn(s: string, digits: string) {
    forall i :: 0 <= i < |s| ==> s[i] in digits
  }

  lemma {:induction false} DigitsIn(c: char)
    ensures DigitValue(c) < 8 <==> c in "01234567"
    ensures DigitValue(c) < 10 <==> c in "0123456789"
    ensures DigitValue(c) < 16 <==> c in "0123456789abcdefABCDEF"
  {
  }

  /** The value of digits, most significant first. */
  lemma {:induction false} PlaceValue(s: string, c: char, base: nat)
    ensures DigitsValue("", base, 0) == 0
    ensures DigitsValue(s + [c], base, 0) == base * DigitsValue(s, base, 0) + DigitValue(c)
  {
    DigitsValueSnoc(s, c, base, 0);
  }

  /** Decimal without a leading zero, octal with one, or hexadecimal behind 0x. */
  predicate IsNumeral(w: string, v: nat) {
    || (w != "" && w[0] != '0' && AllIn(w, "0123456789") && v == DigitsValue(w, 10, 0))
    || (w != "" && w[0] == '0' && AllIn(w, "01234567") && v == DigitsValue(w, 8, 0))
    || (|w| > 2 && w[0] == '0' && w[1] in "xX" && AllIn(w[2..], "0123456789abcdefABCDEF") &&
        v == DigitsValue(w[2..], 16, 0))
  }

  lemma {:induction false} ReadDigitsWhole(s: string, base: nat)
    ensures ReadDigits(s, base, 0).1 == |s| <==> forall i :: 0 <= i < |s| ==> DigitValue(s[i]) < base
    ensures ReadDigits(s, base, 0).1 == |s| ==> ReadDigits(s, base, 0).0 == DigitsValue(s, base, 0)
  {
    ReadDigitsOnly(s, base, 0);
    if forall i :: 0 <= i < |s| ==> DigitValue(s[i]) < base {
      ReadDigitsAll(s, "", base, 0);
      assert s + "" == s;
    }
  }

  lemma {:induction false} ReadWhole(s: string)
    ensures ReadDigits(s, 8, 0).1 == |s| <==> AllIn(s, "01234567")
    ensures ReadDigits(s, 10, 0).1 == |s| <==> AllIn(s, "0123456789")
    ensures ReadDigits(s, 16, 0).1 == |s| <==> AllIn(s, "0123456789abcdefABCDEF")
  {
    ReadDigitsWhole(s, 8);
    ReadDigitsWhole(s, 10);
    ReadDigitsWhole(s, 16);
    forall i | 0 <= i < |s|
      ensures DigitValue(s[i]) < 8 <==> s[i] in "01234567"
      ensures DigitValue(s[i]) < 10 <==> s[i] in "0123456789"
      ensures DigitValue(s[i]) < 16 <==> s[i] in "0123456789abcdefABCDEF"
    {
      DigitsIn(s[i]);
    }
    hide ReadDigits, DigitValue, DigitsValue;
  }

  /** The word starts with neither white space nor a sign. */
  predicate IsUnsigned(w: string) {
    w != "" && w[0] !in " \t\n\r\U{0B}\U{0C}+-"
  }

  lemma {:induction false} UnsignedRead(w: string, base: nat)
    requires IsUnsigned(w)
    ensures Strtoull(w, base) == if ReadUnsigned(w, base).1 == 0 then (0, 0) else ReadUnsigned(w, base)
  {
    SpacesAre(w[0]);
    assert w[0..] == w;
    hide ReadUnsigned;
  }

  /** In base 0 a word is a number up to its end exactly if it is a numeral. */
  lemma {:induction false} ReadNumeral(w: string, v: nat)
    requires w != ""
    ensures IsNumeral(w, v) ==> ReadUnsigned(w, 0) == (Saturate(v), |w|)
    ensures ReadUnsigned(w, 0).1 == |w| ==> exists u :: IsNumeral(w, u)
  {
    ReadWhole(w);
    ReadDigitsWhole(w, 8);
    ReadDigitsWhole(w, 10);
    hide ReadDigits, DigitsValue;
    if |w| >= 2 && w[0] == '0' && w[1] in "xX" {
      ReadWhole(w[2..]);
      ReadDigitsWhole(w[2..], 16);
      assert w[1] !in "01234567";
      if ReadUnsigned(w, 0).1 == |w| {
        assert IsNumeral(w, DigitsValue(w[2..], 16, 0));
      }
    } else if ReadUnsigned(w, 0).1 == |w| {
      assert IsNumeral(w, DigitsValue(w, if w[0] == '0' then 8 else 10, 0));
    }
  }

  /** An id is a whole numeral below 2^32, and every word that is none is rejected. */
  lemma {:induction false} Uint32Is(w: string, v: nat)
    requires IsUnsigned(w)
    ensures ParseUint32(w) == Some(v) <==> IsNumeral(w, v) && v < 0x1_0000_0000
  {
    UnsignedRead(w, 0);
    ReadNumeral(w, v);
    hide IsNumeral, ReadUnsigned, Strtoull;
    if ParseUint32(w) == Some(v) {
      var u :| IsNumeral(w, u);
      ReadNumeral(w, u);
    }
  }

  /** With a plus sign it is the same number, and a minus sign makes it no id, unless it is zero or wraps around. */
  lemma {:induction false} SignedUint32(w: string, v: nat)
    requires IsUnsigned(w)
    ensures ParseUint32("+" + w) == Some(v) <==> IsNumeral(w, v) && v < 0x1_0000_0000
    ensures forall u: nat :: IsNumeral(w, u) && u <= 0xFFFF_FFFF_FFFF_FFFF ==>
              (ParseUint32("-" + w) == Some(v) <==>
                 v < 0x1_0000_0000 && v == if u == 0 then 0 else 0x1_0000_0000_0000_0000 - u)
  {
    Uint32Is(w, v);
    UnsignedRead(w, 0);
    SignedRead(w);
    hide Strtoull, ReadUnsigned, IsNumeral;
    forall u: nat | IsNumeral(w, u) ensures ReadUnsigned(w, 0) == (Saturate(u), |w|) {
      ReadNumeral(w, u);
    }
  }

  lemma {:induction false} SignedRead(w: string)
    requires IsUnsigned(w)
    ensures var (u, n) := ReadUnsigned(w, 0);
      && Strtoull("+" + w, 0) == (if n == 0 then (0, 0) else (u, n + 1))
      && Strtoull("-" + w, 0) == (if n == 0 then (0, 0) else (if u == 0 then 0 else TWO_64 - u, n + 1))
  {
    assert ("+" + w)[1..] == w && ("-" + w)[1..] == w;
    hide ReadUnsigned;
  }

  /** The digits behind an optional 0x. */
  function HexBody(w: string): string {
    if |w| >= 2 && w[0] == '0' && w[1] in "xX" then w[2..] else w
  }

  /** Capabilities are a whole hexadecimal number, which saturates at 64 bits. */
  lemma {:induction false} Uint64Is(w: string, v: nat)
    requires IsUnsigned(w)
    ensures ParseUint64(w) == Some(v) <==>
      && HexBody(w) != "" && AllIn(HexBody(w), "0123456789abcdefABCDEF")
      && v == if DigitsValue(HexBody(w), 16, 0) > 0xFFFF_FFFF_FFFF_FFFF then 0xFFFF_FFFF_FFFF_FFFF
              else DigitsValue(HexBody(w), 16, 0)
  {
    UnsignedRead(w, 16);
    ReadWhole(HexBody(w));
    ReadDigitsWhole(HexBody(w), 16);
    hide ReadDigits, DigitsValue, Strtoull;
  }

  // Words

  /** White space in GLib's sense, and nothing else, separates words. */
  predicate AllSpaces(s: string) {
    forall i :: 0 <= i < |s| ==> s[i] in " \t\n\r\U{0C}"
  }

  predicate IsWord(w: string) {
    w != "" && forall i :: 0 <= i < |w| ==> w[i] !in " \t\n\r\U{0C}"
  }

  lemma {:induction false} SpacesThen(s: string, rest: string)
    requires AllSpaces(s)
    ensures Words(s + rest) == Words(rest)
    decreases |s|
  {
    hide Words;
    if s == "" {
      assert s + rest == rest;
    } else {
      SpacesAre(s[0]);
      assert s + rest == [s[0]] + (s[1..] + rest);
      SpaceThen(s[0], s[1..] + rest);
      SpacesThen(s[1..], rest);
    }
  }

  /** The words of a value, one after the other. */
  lemma {:induction false} WordsAre(s: string, w: string, rest: string)
    requires AllSpaces(s) && IsWord(w) && (rest != "" ==> rest[0] in " \t\n\r\U{0C}")
    ensures Words(s) == []
    ensures Words(s + w + rest) == [w] + Words(rest)
  {
    hide Words;
    SpacesThen(s, "");
    NoWords("");
    assert s + "" == s;
    SpacesThen(s, w + rest);
    assert s + w + rest == s + (w + rest);
    forall i | 0 <= i < |w| ensures InWord(w[i]) {
      SpacesAre(w[i]);
    }
    if rest != "" {
      SpacesAre(rest[0]);
    }
    assert AreWords([w]);
    WordThen(w, rest);
  }

  /** The effective id is the second of four numbers; any other number of words gives none. */
  lemma {:induction false} EffectiveId(words: seq<string>, id: nat)
    requires |words| == 4 ==> IsUnsigned(words[1])
    ensures SecondOfFour(words) == Some(id) <==> |words| == 4 && IsNumeral(words[1], id) && id < 0x1_0000_0000
  {
    if |words| == 4 {
      Uint32Is(words[1], id);
    }
    hide ParseUint32, IsNumeral;
  }

  /** Group ids are the numbers among the words, in their order; other words are passed over. */
  lemma {:induction false} GroupIdsAppend(words: seq<string>, w: string)
    requires IsUnsigned(w)
    ensures GroupIds([]) == []
    ensures forall id: nat :: IsNumeral(w, id) && id < 0x1_0000_0000 ==> GroupIds(words + [w]) == GroupIds(words) + [id]
    ensures (forall id: nat :: IsNumeral(w, id) ==> id >= 0x1_0000_0000) ==> GroupIds(words + [w]) == GroupIds(words)
  {
    assert (words + [w])[..|words|] == words;
    forall id: nat ensures ParseUint32(w) == Some(id) <==> IsNumeral(w, id) && id < 0x1_0000_0000 {
      Uint32Is(w, id);
    }
    hide ParseUint32, IsNumeral;
  }

  /** Words that are no numbers count neither as 0 nor as anything else. */
  lemma {:induction false} GarbageIgnored()
    ensures GroupIds(["39", "100", "garbage", "100000"]) == [39, 100, 100000]
    ensures SecondOfFour(["100000", "xxx", "998", "998"]) == None
  {
    hide IsNumeral, GroupIds, ParseUint32;
    NumeralsAre();
    GroupIdsAppend([], "39");
    GroupIdsAppend(["39"], "100");
    GroupIdsAppend(["39", "100"], "garbage");
    GroupIdsAppend(["39", "100", "garbage"], "100000");
    assert [] + ["39"] == ["39"] && ["39"] + ["100"] == ["39", "100"];
    assert ["39", "100"] + ["garbage"] == ["39", "100", "garbage"];
    assert ["39", "100", "garbage"] + ["100000"] == ["39", "100", "garbage", "100000"];
    var words := ["100000", "xxx", "998", "998"];
    if SecondOfFour(words).Some? {
      EffectiveId(words, SecondOfFour(words).value);
    }
  }

  lemma {:induction false} NumeralsAre()
    ensures IsNumeral("39", 39) && IsNumeral("100", 100) && IsNumeral("100000", 100000)
    ensures forall v :: !IsNumeral("garbage", v) && !IsNumeral("xxx", v)
  {
    ThirtyNine();
    HundredThousand();
    assert "garbage"[0] !in "0123456789" && "xxx"[0] !in "0123456789";
    hide DigitsValue;
  }

  lemma {:induction false} ThirtyNine()
    ensures DigitsValue("39", 10, 0) == 39
  {
    PlaceValue("", '3', 10);
    PlaceValue("3", '9', 10);
    hide DigitsValue;
    assert "" + ['3'] == "3" && "3" + ['9'] == "39";
  }

  lemma {:induction false} HundredThousand()
    ensures DigitsValue("100", 10, 0) == 100 && DigitsValue("100000", 10, 0) == 100000
  {
    hide DigitsValue;
    PlaceValue("", '1', 10);
    PlaceValue("1", '0', 10);
    PlaceValue("10", '0', 10);
    PlaceValue("100", '0', 10);
    PlaceValue("1000", '0', 10);
    PlaceValue("10000", '0', 10);
    assert "" + ['1'] == "1" && "1" + ['0'] == "10" && "10" + ['0'] == "100" && "100" + ['0'] == "1000";
    assert "1000" + ['0'] == "10000" && "10000" + ['0'] == "100000";
  }

  /** Capabilities are read from a single word. */
  lemma {:induction false} SingleWord(words: seq<string>)
    ensures OnlyWord(words) == if |words| == 1 then ParseUint64(words[0]) else None
  {
  }

  // Keys and lines

  /** The names of the keys, in upper or lower case letters. */
  lemma {:induction false} KeyNames(s: string)
    ensures SameName(KeyName(Uid), s) <==> |s| == 3 && s[0] in "uU" && s[1] in "iI" && s[2] in "dD"
    ensures SameName(KeyName(Gid), s) <==> |s| == 3 && s[0] in "gG" && s[1] in "iI" && s[2] in "dD"
    ensures SameName(KeyName(Groups), s) <==>
            && |s| == 6 && s[0] in "gG" && s[1] in "rR" && s[2] in "oO" && s[3] in "uU" && s[4] in "pP" && s[5] in "sS"
    ensures SameName(KeyName(CapEff), s) <==>
            && |s| == 6 && s[0] in "cC" && s[1] in "aA" && s[2] in "pP" && s[3] in "eE" && s[4] in "fF" && s[5] in "fF"
  {
  }

  /** White space may stand before a key, but not between it and its colon. */
  lemma {:induction false} KeyedLine(s: string, key: string, rest: string)
    requires AllSpaces(s) && (forall i :: 0 <= i < |key| ==> key[i] !in " \t\n\r\U{0C}:")
    ensures ParseLine(s + key + ":" + rest) == Some(Field(key, rest))
    ensures key != "" && (rest != "" ==> rest[0] in " \t\n\r\U{0C}") ==> ParseLine(s + key + rest) == None
  {
    assert forall c :: c in " \t\n\r\U{0C}" <==> IsSpace(c) by {
      forall c ensures c in " \t\n\r\U{0C}" <==> IsSpace(c) { SpacesAre(c); }
    }
    hide IsSpace;
    KeyFound(s, key, ":" + rest);
    assert s + key + (":" + rest) == s + key + ":" + rest;
    if key != "" && (rest != "" ==> IsSpace(rest[0])) {
      KeyFound(s, key, rest);
    }
  }

  lemma {:induction false} KeyFound(s: string, key: string, rest: string)
    requires (forall i :: 0 <= i < |s| ==> IsSpace(s[i])) && (forall i :: 0 <= i < |key| ==> InKey(key[i]))
    requires (rest != "" ==> !InKey(rest[0])) && (key == "" ==> rest != "" && rest[0] == ':')
    ensures ParseLine(s + key + rest) ==
            if rest != "" && rest[0] == ':' then Some(Field(key, rest[1..])) else None
  {
    var line := s + key + rest;
    RunIs(line, IsSpace, |s|);
    assert TrimLeft(line) == key + rest;
    RunIs(key + rest, InKey, |key|);
    assert (key + rest)[..|key|] == key;
    assert rest != "" ==> (key + rest)[|key| + 1..] == rest[1..];
  }

  /** A newline ends a line. */
  lemma {:induction false} LinesAre(line: string, rest: string)
    requires '\n' !in line
    ensures Lines("") == []
    ensures line != "" ==> Lines(line) == [line]
    ensures Lines(line + "\n" + rest) == [line] + Lines(rest)
  {
    var s := line + "\n" + rest;
    FirstLineIs(s, |line|);
    assert s[..|line|] == line && s[|line| + 1..] == rest;
    FirstLineIs(line, |line|);
    assert line[..|line|] == line;
    hide FirstLine, AfterFirstLine;
    if line != "" {
      assert Lines(line) == [line] + Lines("");
    }
  }

  /** The first line with a key counts. */
  lemma {:induction false} FirstCounts(lines: seq<string>, k: Key, value: string)
    ensures FirstValue(lines, k) == Some(value) <==>
            exists i :: 0 <= i < |lines| && ValueOf(lines[i], k) == Some(value)
                        && forall j :: 0 <= j < i ==> ValueOf(lines[j], k) == None
  {
    hide ValueOf;
    if lines != [] {
      FirstCounts(lines[1..], k, value);
    }
  }
}
