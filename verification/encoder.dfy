/** The `Encoder` class: frequency counting, encoding and serialisation of its table. */
module Encoder {
  import opened Text
  import opened Outcomes
  import opened Dicts
  import HuffmanTree

  /** The occurrence counts of the letters of `s`, in order of first occurrence: the `defaultdict(int)` loop. */
  function Frequencies(s: string): (freq: Dict<char, nat>)
    ensures forall c :: c in freq.entries <==> IsAlpha(c) && c in s
    ensures forall c :: c in freq.entries ==> freq.entries[c] == multiset(s)[c]
    decreases |s|
  {
    if |s| == 0 then Empty()
    else
      var init := s[..|s| - 1];
      var c := s[|s| - 1];
      var f := Frequencies(init);
      assert s == init + [c];
      assert multiset(s) == multiset(init) + multiset{c};
      if IsAlpha(c) then Put(f, c, (if c in f.entries then f.entries[c] else 0) + 1)
      else f
  }

  /** `Encoder.from_string(s)`: count the letters, then build the tree with the markers `G` and `g`. */
  function FromString(s: string): (r: Result<Dict<char, string>>)
    ensures r.Failure? <==> forall i :: 0 <= i < |s| ==> !IsAlpha(s[i])
    ensures r.Failure? ==> r.error == EmptyInput
    ensures r.Success? ==> forall c :: c in r.value.entries <==> IsAlpha(c) && c in s
    ensures r.Success? ==> forall c :: c in r.value.entries ==> OverMarkers(r.value.entries[c], HiMarker, LoMarker)
    ensures r.Success? ==> PrefixFree(r.value.entries)
    ensures r.Success? && |r.value.keys| >= 2 ==> forall c :: c in r.value.entries ==> r.value.entries[c] != ""
    ensures r.Success? && |r.value.keys| == 1 ==> r.value.entries == map[r.value.keys[0] := ""]
  {
    var freq := Frequencies(s);
    assert (exists i :: 0 <= i < |s| && IsAlpha(s[i])) ==> |freq.keys| > 0 by {
      if exists i :: 0 <= i < |s| && IsAlpha(s[i]) {
        var i :| 0 <= i < |s| && IsAlpha(s[i]);
        assert s[i] in freq.entries;
      }
    }
    var r := HuffmanTree.FromFrequencies(freq, HiMarker, LoMarker);
    assert r.Success? && |r.value.keys| == 1 ==> r.value.keys[0] == freq.keys[0] by {
      if r.Success? && |r.value.keys| == 1 {
        assert r.value.keys[0] in r.value.entries;
      }
    }
    r
  }

  /** What one character of the input becomes. */
  function Image(enc: map<char, string>, c: char): Result<string> {
    if !IsAlpha(c) then Success([c])
    else if c in enc then Success(enc[c])
    else Failure(MissingCode(c))
  }

  /** Every letter of `s` has a codeword in `enc`. */
  predicate Covers(enc: map<char, string>, s: string) {
    forall i :: 0 <= i < |s| && IsAlpha(s[i]) ==> s[i] in enc
  }

  lemma CoversTail(enc: map<char, string>, s: string)
    requires |s| > 0 && Covers(enc, s)
    ensures Covers(enc, s[1..])
    ensures IsAlpha(s[0]) ==> s[0] in enc
  {
    forall i | 0 <= i < |s| - 1 && IsAlpha(s[1..][i]) ensures s[1..][i] in enc {
      assert s[1..][i] == s[i + 1];
    }
  }

  /** `Encoder.encode(s)`: each letter replaced by its codeword, everything else copied. */
  function Encode(enc: map<char, string>, s: string): (r: Result<string>)
    ensures r.Success? <==> Covers(enc, s)
    ensures r.Failure? ==> r.error.MissingCode? && IsAlpha(r.error.symbol)
                           && r.error.symbol in s && r.error.symbol !in enc
    ensures r.Success? && (forall i :: 0 <= i < |s| ==> !IsAlpha(s[i])) ==> r.value == s
    decreases |s|
  {
    if |s| == 0 then Success("")
    else
      var r := Concat(Image(enc, s[0]), Encode(enc, s[1..]));
      assert s == [s[0]] + s[1..];
      assert Covers(enc, s) <==> (IsAlpha(s[0]) ==> s[0] in enc) && Covers(enc, s[1..]) by {
        if Covers(enc, s[1..]) && (IsAlpha(s[0]) ==> s[0] in enc) {
          forall i | 0 <= i < |s| && IsAlpha(s[i]) ensures s[i] in enc {
            if i > 0 { assert s[i] == s[1..][i - 1]; }
          }
        }
        if Covers(enc, s) {
          forall i | 0 <= i < |s| - 1 && IsAlpha(s[1..][i]) ensures s[1..][i] in enc {
            assert s[1..][i] == s[i + 1];
          }
        }
      }
      r
  }

  /** Encoding is a homomorphism: the code of a concatenation is the concatenation of the codes. */
  lemma {:induction false} EncodeAppend(enc: map<char, string>, a: string, b: string)
    ensures Encode(enc, a + b) == Concat(Encode(enc, a), Encode(enc, b))
    decreases |a|
  {
    if |a| == 0 {
      assert a + b == b;
      if Encode(enc, b).Success? {
        assert "" + Encode(enc, b).value == Encode(enc, b).value;
      }
    } else {
      assert (a + b)[0] == a[0];
      assert (a + b)[1..] == a[1..] + b;
      EncodeAppend(enc, a[1..], b);
      ConcatAssociative(Image(enc, a[0]), Encode(enc, a[1..]), Encode(enc, b));
    }
  }

  /** A one-character text: a letter becomes its codeword, or fails when it has none; any other
      character is copied. With `EncodeAppend` this determines `Encode` on every text. */
  lemma EncodeChar(enc: map<char, string>, c: char)
    ensures IsAlpha(c) && c in enc ==> Encode(enc, [c]) == Success(enc[c])
    ensures IsAlpha(c) && c !in enc ==> Encode(enc, [c]) == Failure(MissingCode(c))
    ensures !IsAlpha(c) ==> Encode(enc, [c]) == Success([c])
  {
    assert [c][1..] == "";
    if IsAlpha(c) && c in enc {
      assert enc[c] + "" == enc[c];
    }
  }

  /** The text with its letters removed, everything else kept in order. */
  function DropLetters(s: string): (r: string)
    ensures |r| <= |s|
    ensures forall i :: 0 <= i < |r| ==> !IsAlpha(r[i])
    ensures forall c :: !IsAlpha(c) ==> multiset(r)[c] == multiset(s)[c]
    decreases |s|
  {
    if |s| == 0 then ""
    else
      assert s == [s[0]] + s[1..];
      (if IsAlpha(s[0]) then "" else [s[0]]) + DropLetters(s[1..])
  }

  /** When every codeword is empty, encoding erases the letters and keeps the rest. */
  lemma {:induction false} EncodeEmptyCodes(enc: map<char, string>, s: string)
    requires forall c :: c in enc ==> enc[c] == ""
    requires Covers(enc, s)
    ensures Encode(enc, s) == Success(DropLetters(s))
    decreases |s|
  {
    if |s| > 0 {
      CoversTail(enc, s);
      EncodeEmptyCodes(enc, s[1..]);
      if IsAlpha(s[0]) {
        assert "" + DropLetters(s[1..]) == DropLetters(s[1..]);
      }
    }
  }

  /** One `k v` entry of the serialised table. */
  function Entry(k: char, v: string): string {
    [k] + " " + v
  }

  /** `" ".join(k + " " + v for k, v in items)`. */
  function Join(items: seq<(char, string)>): (r: string)
    ensures r == "" <==> |items| == 0
    ensures |items| > 0 ==> |r| >= 2 + |items[0].1| && r[..2 + |items[0].1|] == Entry(items[0].0, items[0].1)
  {
    if |items| == 0 then ""
    else if |items| == 1 then Entry(items[0].0, items[0].1)
    else
      var e := Entry(items[0].0, items[0].1);
      assert (e + " " + Join(items[1..]))[..|e|] == e;
      e + " " + Join(items[1..])
  }

  /** `Encoder.__str__`: the table as `k v k v ...` in the dictionary's iteration order. It is
      empty only for an empty table, and it opens with the first key, a space and its codeword. */
  function Serialize(enc: Dict<char, string>): (r: string)
    ensures r == "" <==> |enc.keys| == 0
    ensures |enc.keys| > 0 ==> |r| >= 2 + |enc.entries[enc.keys[0]]|
    ensures |enc.keys| > 0 ==> r[..2 + |enc.entries[enc.keys[0]]|] == Entry(enc.keys[0], enc.entries[enc.keys[0]])
  {
    var items := Items(enc);
    assert |items| > 0 ==> items[0] == (enc.keys[0], enc.entries[enc.keys[0]]);
    Join(items)
  }
}
