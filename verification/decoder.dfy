/** The `Decoder` class: building the codeword-to-symbol table and greedy decoding. */
module Decoder {
  import opened Text
  import opened Outcomes
  import opened Dicts

  /** The decoder's dictionary, from codeword to symbol. */
  type Table = map<string, char>

  /** Length of the longest run of markers at the start of `t`: the greedy `[Gg]+`. */
  function MarkerRun(t: string): (n: nat)
    ensures n <= |t|
    ensures forall k :: 0 <= k < n ==> IsMarker(t[k])
    ensures n < |t| ==> !IsMarker(t[n])
    decreases |t|
  {
    if |t| == 0 || !IsMarker(t[0]) then 0 else 1 + MarkerRun(t[1..])
  }

  /** `re.findall("(\w) ([Gg]+)", s)`: the leftmost non-overlapping matches, as (symbol, codeword) pairs. */
  function FindAll(s: string): (r: seq<(char, string)>)
    ensures forall i :: 0 <= i < |r| ==>
              IsWordChar(r[i].0) && r[i].1 != "" && OverMarkers(r[i].1, HiMarker, LoMarker)
    decreases |s|
  {
    if |s| < 3 then []
    else if IsWordChar(s[0]) && s[1] == ' ' && IsMarker(s[2]) then
      var n := MarkerRun(s[2..]);
      [(s[0], s[2..2 + n])] + FindAll(s[2 + n..])
    else FindAll(s[1..])
  }

  /** Swaps each (symbol, codeword) pair into (codeword, symbol). */
  function Flip(ps: seq<(char, string)>): (r: seq<(string, char)>)
    ensures |r| == |ps|
    ensures forall i :: 0 <= i < |ps| ==> r[i] == (ps[i].1, ps[i].0)
  {
    seq(|ps|, i requires 0 <= i < |ps| => (ps[i].1, ps[i].0))
  }

  /** `Decoder.from_string(s)`: parse `k v k v ...`, skipping whatever does not match, and flip it;
      a codeword found more than once keeps the symbol of its last match. */
  function FromString(s: string): (table: Table)
    ensures "" !in table
    ensures forall code :: code in table ==>
              OverMarkers(code, HiMarker, LoMarker) && IsWordChar(table[code])
    ensures forall i :: 0 <= i < |FindAll(s)| ==> FindAll(s)[i].1 in table
    ensures var ms := FindAll(s);
            forall code :: code in table ==>
              exists i :: 0 <= i < |ms| && ms[i] == (table[code], code) && LastOccurrence(Flip(ms), i)
    ensures var ms := FindAll(s);
            forall i :: 0 <= i < |ms| && LastOccurrence(Flip(ms), i) ==> table[ms[i].1] == ms[i].0
  {
    var ms := FindAll(s);
    var ps := Flip(ms);
    var table := FromPairs(ps).entries;
    forall code | code in table
      ensures code != "" && OverMarkers(code, HiMarker, LoMarker) && IsWordChar(table[code])
      ensures exists i :: 0 <= i < |ms| && ms[i] == (table[code], code) && LastOccurrence(ps, i)
    {
      var i := LastIndexOf(ps, code);
      assert ms[i] == (table[code], code);
    }
    forall i | 0 <= i < |FindAll(s)|
      ensures FindAll(s)[i].1 in table
    {
      assert Firsts(ps)[i] == FindAll(s)[i].1;
    }
    table
  }

  /** `Decoder.from_char2code_map(enc)`: `{v: k for k, v in enc.items()}`. */
  function FromCodeMap(enc: Dict<char, string>): (table: Table)
    ensures forall c :: c in enc.entries ==> enc.entries[c] in table
    ensures forall code :: code in table ==> table[code] in enc.entries && enc.entries[table[code]] == code
    ensures Injective(enc.entries) ==> forall c :: c in enc.entries ==> table[enc.entries[c]] == c
  {
    InvertComplete(enc);
    InvertSound(enc);
    if Injective(enc.entries) then
      InvertInjective(enc);
      FromPairs(Flip(Items(enc))).entries
    else
      FromPairs(Flip(Items(enc))).entries
  }

  /** Every codeword of the table becomes a key of the inverted table. */
  lemma InvertComplete(enc: Dict<char, string>)
    ensures forall c :: c in enc.entries ==> enc.entries[c] in FromPairs(Flip(Items(enc))).entries
  {
    var items := Items(enc);
    var ps := Flip(items);
    forall c | c in enc.entries
      ensures enc.entries[c] in FromPairs(ps).entries
    {
      var i :| 0 <= i < |enc.keys| && enc.keys[i] == c;
      assert Firsts(items)[i] == c;
      assert Firsts(ps)[i] == enc.entries[c];
    }
  }

  /** Each key of the inverted table maps to a symbol whose codeword it is. */
  lemma InvertSound(enc: Dict<char, string>)
    ensures forall code :: code in FromPairs(Flip(Items(enc))).entries ==>
              FromPairs(Flip(Items(enc))).entries[code] in enc.entries
              && enc.entries[FromPairs(Flip(Items(enc))).entries[code]] == code
  {
    var items := Items(enc);
    var ps := Flip(items);
    forall code | code in FromPairs(ps).entries
      ensures FromPairs(ps).entries[code] in enc.entries
      ensures enc.entries[FromPairs(ps).entries[code]] == code
    {
      var i := LastIndexOf(ps, code);
      assert Firsts(items)[i] == items[i].0;
    }
  }

  /** When no two symbols share a codeword, inverting loses nothing. */
  lemma InvertInjective(enc: Dict<char, string>)
    requires Injective(enc.entries)
    ensures forall c :: c in enc.entries ==> FromPairs(Flip(Items(enc))).entries[enc.entries[c]] == c
  {
    var items := Items(enc);
    var ps := Flip(items);
    DistinctCodewords(enc);
    FromDistinctPairs(ps);
    forall c | c in enc.entries
      ensures FromPairs(ps).entries[enc.entries[c]] == c
    {
      var i :| 0 <= i < |enc.keys| && enc.keys[i] == c;
      assert Firsts(items)[i] == c;
      assert ps[i] == (enc.entries[c], c);
    }
  }

  /** Listed in key order, the codewords of an injective table are distinct. */
  lemma DistinctCodewords(enc: Dict<char, string>)
    requires Injective(enc.entries)
    ensures NoDups(Firsts(Flip(Items(enc))))
  {
    var items := Items(enc);
    var fs := Firsts(Flip(items));
    forall i, j | 0 <= i < j < |fs|
      ensures fs[i] != fs[j]
    {
      assert Firsts(items)[i] == enc.keys[i] && Firsts(items)[j] == enc.keys[j];
      assert fs[i] == enc.entries[enc.keys[i]] && fs[j] == enc.entries[enc.keys[j]];
    }
  }

  /** The search loop of `_get_head`, with `head` the characters taken so far. */
  function Scan(table: Table, head: string, s: string): (r: Result<(string, string)>)
    ensures r.Success? ==> r.value.0 + r.value.1 == head + s && r.value.0 in table
    ensures r.Success? ==> |head| <= |r.value.0|
    ensures r.Success? ==> forall k :: |head| <= k < |r.value.0| ==> (head + s)[..k] !in table
    ensures r.Failure? ==> r.error == UnresolvableHead(head + s)
    ensures r.Failure? ==> forall k :: |head| <= k <= |head + s| ==> (head + s)[..k] !in table
    decreases |s|
  {
    if head in table then
      assert (head + s)[..|head|] == head;
      Success((head, s))
    else if |s| == 0 then
      assert head + s == head;
      Failure(UnresolvableHead(head))
    else
      var r := Scan(table, head + [s[0]], s[1..]);
      assert (head + [s[0]]) + s[1..] == head + s;
      assert (head + s)[..|head|] == head;
      r
  }

  /** `Decoder._get_head(s)`: the shortest prefix of `s` that is a codeword, and the rest of `s`. */
  function GetHead(table: Table, s: string): (r: Result<(string, string)>)
    ensures r.Success? ==> r.value.0 + r.value.1 == s && r.value.0 in table
    ensures r.Success? ==> forall k :: 0 <= k < |r.value.0| ==> s[..k] !in table
    ensures r.Failure? ==> r.error == UnresolvableHead(s)
    ensures r.Failure? ==> forall k :: 0 <= k <= |s| ==> s[..k] !in table
  {
    assert "" + s == s;
    Scan(table, "", s)
  }

  /** `_get_head` finds exactly the shortest codeword prefix: if `s[..n]` is a codeword and no
      shorter prefix is, the head is `s[..n]`. */
  lemma GetHeadShortest(table: Table, s: string, n: nat)
    requires n <= |s| && s[..n] in table
    requires forall k :: 0 <= k < n ==> s[..k] !in table
    ensures GetHead(table, s) == Success((s[..n], s[n..]))
  {
    var r := GetHead(table, s);
    assert r.Success?;
    var (head, rest) := r.value;
    assert s[..|head|] == head;
    assert |head| == n;
    assert rest == s[n..];
  }

  /** `Decoder.decode(s)`. When the empty string is a codeword, `_get_head` returns the empty head
      without consuming input, so the source never stops at the first letter; such a table is
      admitted only for texts without letters, which never reach `_get_head`. */
  function Decode(table: Table, s: string): (r: Result<string>)
    requires "" !in table || forall i :: 0 <= i < |s| ==> !IsAlpha(s[i])
    ensures r.Success? ==> |r.value| <= |s|
    ensures r.Failure? ==> r.error.UnresolvableHead?
    ensures (forall i :: 0 <= i < |s| ==> !IsAlpha(s[i])) ==> r == Success(s)
    decreases |s|
  {
    if |s| == 0 then Success("")
    else if !IsAlpha(s[0]) then
      assert s == [s[0]] + s[1..];
      assert forall i :: 0 <= i < |s| - 1 ==> s[1..][i] == s[i + 1];
      Concat(Success([s[0]]), Decode(table, s[1..]))
    else
      match GetHead(table, s)
      case Failure(e) => Failure(e)
      case Success((head, rest)) =>
        assert |head| > 0;
        Concat(Success([table[head]]), Decode(table, rest))
  }
}
