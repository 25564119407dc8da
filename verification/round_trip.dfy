/** The laws that tie the encoder and the decoder together: decoding undoes
    encoding, and parsing undoes serialisation. */
module RoundTrip {
  import opened Text
  import opened Outcomes
  import opened Dicts
  import Encoder
  import Decoder

  /** With a prefix-free table, the shortest codeword prefix of `code + t` is `code` itself,
      for any decoder table that inverts it. */
  lemma HeadIsCodeword(enc: map<char, string>, table: Decoder.Table, c: char, t: string)
    requires PrefixFree(enc)
    requires c in enc && enc[c] in table
    requires forall w :: w in table ==> table[w] in enc && enc[table[w]] == w
    ensures Decoder.GetHead(table, enc[c] + t) == Success((enc[c], t))
  {
    var code := enc[c];
    var s := code + t;
    assert s[..|code|] == code;
    assert s[|code|..] == t;
    forall k | 0 <= k < |code|
      ensures s[..k] !in table
    {
      assert s[..k] == code[..k];
      assert IsPrefix(code[..k], code);
      forall w | w in table
        ensures w != code[..k]
      {
        var d := table[w];
        if d != c {
          assert !IsPrefix(enc[d], code);
        }
      }
    }
    Decoder.GetHeadShortest(table, s, |code|);
  }

  /** `table` is an inverse of the code table `enc`: it has every codeword, and each of its
      entries maps a codeword back to a symbol with that codeword. */
  predicate Inverts(enc: map<char, string>, table: Decoder.Table) {
    && (forall c :: c in enc ==> enc[c] in table)
    && (forall w :: w in table ==> table[w] in enc && enc[table[w]] == w)
  }

  /** `from_char2code_map` produces an inverse. */
  lemma FromCodeMapInverts(enc: Dict<char, string>)
    ensures Inverts(enc.entries, Decoder.FromCodeMap(enc))
  {
  }

  /** No codeword of an inverse table is empty when no codeword of the table is. */
  lemma NoEmptyCodeword(enc: map<char, string>, table: Decoder.Table)
    requires forall c :: c in enc ==> enc[c] != ""
    requires Inverts(enc, table)
    ensures "" !in table
  {
    forall w | w in table
      ensures w != ""
    {
      assert enc[table[w]] == w;
    }
  }

  /** The decoding step for a letter: its codeword is consumed and the letter emitted. */
  lemma DecodeLetter(enc: map<char, string>, table: Decoder.Table, x: char, e': string)
    requires PrefixFree(enc)
    requires forall c :: c in enc ==> enc[c] != "" && IsAlpha(enc[c][0])
    requires Inverts(enc, table)
    requires x in enc
    ensures "" !in table
    ensures Decoder.Decode(table, enc[x] + e') == Concat(Success([x]), Decoder.Decode(table, e'))
  {
    NoEmptyCodeword(enc, table);
    var code := enc[x];
    HeadIsCodeword(enc, table, x, e');
    PrefixFreeIsInjective(enc);
    assert table[code] == x;
    assert (code + e')[0] == code[0];
  }

  /** Decoding undoes encoding: for a prefix-free table whose codewords are non-empty and
      start with a letter, decoding with any inverse table recovers every text whose letters
      all have codewords. */
  lemma {:induction false} DecodeEncode(enc: map<char, string>, table: Decoder.Table, s: string)
    requires PrefixFree(enc)
    requires forall c :: c in enc ==> enc[c] != "" && IsAlpha(enc[c][0])
    requires Inverts(enc, table)
    requires Encoder.Covers(enc, s)
    ensures "" !in table
    ensures Encoder.Encode(enc, s).Success?
    ensures Decoder.Decode(table, Encoder.Encode(enc, s).value) == Success(s)
    decreases |s|
  {
    NoEmptyCodeword(enc, table);
    if |s| > 0 {
      Encoder.CoversTail(enc, s);
      DecodeEncode(enc, table, s[1..]);
      if IsAlpha(s[0]) {
        DecodeLetter(enc, table, s[0], Encoder.Encode(enc, s[1..]).value);
        LetterStep(enc, table, s);
      } else {
        OtherStep(enc, table, s);
      }
    }
  }

  /** Inductive step of `DecodeEncode` for a text that starts with a letter. */
  lemma LetterStep(enc: map<char, string>, table: Decoder.Table, s: string)
    requires |s| > 0 && s[0] in enc && IsAlpha(s[0])
    requires "" !in table
    requires Encoder.Encode(enc, s[1..]).Success?
    requires Decoder.Decode(table, Encoder.Encode(enc, s[1..]).value) == Success(s[1..])
    requires Decoder.Decode(table, enc[s[0]] + Encoder.Encode(enc, s[1..]).value)
          == Concat(Success([s[0]]), Decoder.Decode(table, Encoder.Encode(enc, s[1..]).value))
    ensures Encoder.Encode(enc, s) == Success(enc[s[0]] + Encoder.Encode(enc, s[1..]).value)
    ensures Decoder.Decode(table, Encoder.Encode(enc, s).value) == Success(s)
  {
    assert s == [s[0]] + s[1..];
  }

  /** Inductive step of `DecodeEncode` for a text that starts with some other character. */
  lemma OtherStep(enc: map<char, string>, table: Decoder.Table, s: string)
    requires |s| > 0 && !IsAlpha(s[0])
    requires "" !in table
    requires Encoder.Encode(enc, s[1..]).Success?
    requires Decoder.Decode(table, Encoder.Encode(enc, s[1..]).value) == Success(s[1..])
    ensures Encoder.Encode(enc, s) == Success([s[0]] + Encoder.Encode(enc, s[1..]).value)
    ensures Decoder.Decode(table, Encoder.Encode(enc, s).value) == Success(s)
  {
    var e' := Encoder.Encode(enc, s[1..]).value;
    var e := [s[0]] + e';
    assert e[1..] == e';
    assert s == [s[0]] + s[1..];
  }

  /** The entries of a serialised table are found again by the parser, in order. */
  lemma {:induction false} FindAllJoin(items: seq<(char, string)>)
    requires forall i :: 0 <= i < |items| ==>
               IsWordChar(items[i].0) && items[i].1 != "" && OverMarkers(items[i].1, HiMarker, LoMarker)
    ensures Decoder.FindAll(Encoder.Join(items)) == items
    decreases |items|
  {
    if |items| > 0 {
      var (k, v) := items[0];
      var s := Encoder.Join(items);
      var tail := if |items| == 1 then "" else " " + Encoder.Join(items[1..]);
      assert s == [k, ' '] + v + tail;
      assert s[2..] == v + tail;
      RunOfMarkers(v, tail);
      assert s[2..2 + |v|] == v;
      assert s[2 + |v|..] == tail;
      if |items| == 1 {
        assert Decoder.FindAll(tail) == [];
      } else {
        FindAllJoin(items[1..]);
        SkipSpace(Encoder.Join(items[1..]));
      }
      assert items == [items[0]] + items[1..];
    }
  }

  /** `[Gg]+` stops at the first character that is not a marker. */
  lemma {:induction false} RunOfMarkers(v: string, tail: string)
    requires OverMarkers(v, HiMarker, LoMarker)
    requires |tail| == 0 || tail[0] == ' '
    ensures Decoder.MarkerRun(v + tail) == |v|
    decreases |v|
  {
    if |v| > 0 {
      assert (v + tail)[1..] == v[1..] + tail;
      RunOfMarkers(v[1..], tail);
    } else {
      assert v + tail == tail;
    }
  }

  /** The separating space is not a word character, so the parser steps over it. */
  lemma SkipSpace(s: string)
    ensures Decoder.FindAll(" " + s) == Decoder.FindAll(s)
  {
    assert (" " + s)[1..] == s;
  }

  /** The parser finds the printed table's items again, in iteration order, as long as the
      symbols are word characters and the codewords non-empty runs of markers. */
  lemma ParseSerialized(enc: Dict<char, string>)
    requires forall c :: c in enc.entries ==>
               IsWordChar(c) && enc.entries[c] != "" && OverMarkers(enc.entries[c], HiMarker, LoMarker)
    ensures Decoder.FindAll(Encoder.Serialize(enc)) == Items(enc)
  {
    var items := Items(enc);
    forall i | 0 <= i < |items|
      ensures IsWordChar(items[i].0) && items[i].1 != "" && OverMarkers(items[i].1, HiMarker, LoMarker)
    {
      assert Firsts(items)[i] == enc.keys[i];
    }
    FindAllJoin(items);
  }

  /** Serialising a table and parsing it back gives the same decoder table as inverting it. */
  lemma SerializeParse(enc: Dict<char, string>)
    requires forall c :: c in enc.entries ==>
               IsWordChar(c) && enc.entries[c] != "" && OverMarkers(enc.entries[c], HiMarker, LoMarker)
    ensures Decoder.FromString(Encoder.Serialize(enc)) == Decoder.FromCodeMap(enc)
  {
    ParseSerialized(enc);
  }

  /** The laws for a table with two or more symbols, as the tree builder produces it. */
  lemma ManySymbols(enc: Dict<char, string>, s: string)
    requires PrefixFree(enc.entries)
    requires forall c :: c in enc.entries ==> IsAlpha(c)
    requires forall c :: c in enc.entries ==> enc.entries[c] != "" && OverMarkers(enc.entries[c], HiMarker, LoMarker)
    requires Encoder.Covers(enc.entries, s)
    ensures "" !in Decoder.FromCodeMap(enc)
    ensures Encoder.Encode(enc.entries, s).Success?
    ensures Decoder.Decode(Decoder.FromCodeMap(enc), Encoder.Encode(enc.entries, s).value) == Success(s)
    ensures Decoder.FromString(Encoder.Serialize(enc)) == Decoder.FromCodeMap(enc)
  {
    forall c | c in enc.entries
      ensures IsAlpha(enc.entries[c][0])
    {
      assert OverMarkers(enc.entries[c], HiMarker, LoMarker);
    }
    FromCodeMapInverts(enc);
    DecodeEncode(enc.entries, Decoder.FromCodeMap(enc), s);
    SerializeParse(enc);
  }

  /** A table with one symbol has the empty codeword: the inverted table has the empty
      string as a key, and the printed table `k ` parses to nothing. */
  lemma OneSymbol(enc: Dict<char, string>)
    requires |enc.keys| == 1
    requires enc.entries[enc.keys[0]] == ""
    ensures "" in Decoder.FromCodeMap(enc)
    ensures Decoder.FromString(Encoder.Serialize(enc)) == map[]
  {
    var k := enc.keys[0];
    assert k in enc.entries;
    assert Items(enc) == [(k, "")];
    assert Encoder.Serialize(enc) == [k, ' '];
  }

  /** With a one-symbol table the encoding drops the letters, and decoding hands that text back
      unchanged: it has no letter, so the empty codeword is never looked up. */
  lemma OneSymbolText(enc: Dict<char, string>, s: string)
    requires |enc.keys| == 1
    requires enc.entries[enc.keys[0]] == ""
    requires Encoder.Covers(enc.entries, s)
    ensures Encoder.Encode(enc.entries, s) == Success(Encoder.DropLetters(s))
    ensures Decoder.Decode(Decoder.FromCodeMap(enc), Encoder.Encode(enc.entries, s).value)
         == Success(Encoder.DropLetters(s))
  {
    forall c | c in enc.entries
      ensures enc.entries[c] == ""
    {
      assert c == enc.keys[0];
    }
    Encoder.EncodeEmptyCodes(enc.entries, s);
  }

  /** What the `encode` command computes, end to end: with two or more distinct letters the
      text survives encoding and decoding and the printed table parses back to the decoder's
      table; with a single letter its codeword is empty, so the printed table parses to nothing
      and the decoded text is the input with its letters removed. */
  lemma SelfCheck(s: string)
    requires Encoder.FromString(s).Success?
    ensures var enc := Encoder.FromString(s).value;
            Encoder.Encode(enc.entries, s).Success?
    ensures var enc := Encoder.FromString(s).value;
            |enc.keys| >= 2 ==>
              && "" !in Decoder.FromCodeMap(enc)
              && Decoder.Decode(Decoder.FromCodeMap(enc), Encoder.Encode(enc.entries, s).value) == Success(s)
              && Decoder.FromString(Encoder.Serialize(enc)) == Decoder.FromCodeMap(enc)
    ensures var enc := Encoder.FromString(s).value;
            |enc.keys| == 1 ==>
              && "" in Decoder.FromCodeMap(enc)
              && Decoder.FromString(Encoder.Serialize(enc)) == map[]
              && Encoder.Encode(enc.entries, s) == Success(Encoder.DropLetters(s))
              && Decoder.Decode(Decoder.FromCodeMap(enc), Encoder.Encode(enc.entries, s).value)
                 == Success(Encoder.DropLetters(s))
  {
    var enc := Encoder.FromString(s).value;
    assert Encoder.Covers(enc.entries, s);
    if |enc.keys| >= 2 {
      ManySymbols(enc, s);
    }
    if |enc.keys| == 1 {
      OneSymbol(enc);
      OneSymbolText(enc, s);
    }
  }
}
