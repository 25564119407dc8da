/** The tree builder of `Encoder.from_frequencies`.

    The priority queue is a sequence of nodes. Extract-min takes the first node
    of least weight; Python's heap breaks ties between equal weights by
    comparing the member lists, which this model does not fix. Pushing the
    merged node appends it. */
module HuffmanTree {
  import opened Text
  import opened Outcomes
  import opened Dicts

  /** A symbol together with its partial codeword. */
  type Member = (char, string)

  /** A merge node: its weight and the symbols it stands for. */
  datatype Node = Node(weight: nat, members: seq<Member>)

  /** One leaf per symbol, in the order the frequency map lists them, each with the empty codeword. */
  function Leaves(keys: seq<char>, weights: map<char, nat>): seq<Node>
    requires forall k :: k in keys ==> k in weights
  {
    if |keys| == 0 then []
    else [Node(weights[keys[0]], [(keys[0], "")])] + Leaves(keys[1..], weights)
  }

  function SumWeights(keys: seq<char>, weights: map<char, nat>): nat
    requires forall k :: k in keys ==> k in weights
  {
    if |keys| == 0 then 0 else weights[keys[0]] + SumWeights(keys[1..], weights)
  }

  function TotalWeight(heap: seq<Node>): nat {
    if |heap| == 0 then 0 else heap[0].weight + TotalWeight(heap[1..])
  }

  /** The symbols of all nodes of the heap, counted with multiplicity. */
  function HeapSymbols(heap: seq<Node>): multiset<char> {
    if |heap| == 0 then multiset{} else multiset(Firsts(heap[0].members)) + HeapSymbols(heap[1..])
  }

  /** Index of the first node of least weight. */
  function MinIndex(heap: seq<Node>): (i: nat)
    requires |heap| > 0
    ensures i < |heap|
    ensures forall j :: 0 <= j < |heap| ==> heap[i].weight <= heap[j].weight
  {
    if |heap| == 1 then 0
    else
      var k := MinIndex(heap[1..]) + 1;
      if heap[0].weight <= heap[k].weight then 0 else k
  }

  /** The heap without the node at `i`. */
  function RemoveAt(heap: seq<Node>, i: nat): (rest: seq<Node>)
    requires i < |heap|
    ensures multiset(rest) + multiset{heap[i]} == multiset(heap)
    ensures TotalWeight(rest) + heap[i].weight == TotalWeight(heap)
    ensures HeapSymbols(rest) + multiset(Firsts(heap[i].members)) == HeapSymbols(heap)
  {
    assert heap == heap[..i] + ([heap[i]] + heap[i + 1..]);
    Totals(heap[..i], [heap[i]] + heap[i + 1..]);
    Totals([heap[i]], heap[i + 1..]);
    Totals(heap[..i], heap[i + 1..]);
    heap[..i] + heap[i + 1..]
  }

  /** Removes a least-weight node: `heappop`. */
  function ExtractMin(heap: seq<Node>): (r: (Node, seq<Node>))
    requires |heap| > 0
    ensures multiset(r.1) + multiset{r.0} == multiset(heap)
    ensures forall n :: n in heap ==> r.0.weight <= n.weight
    ensures TotalWeight(r.1) + r.0.weight == TotalWeight(heap)
    ensures HeapSymbols(r.1) + multiset(Firsts(r.0.members)) == HeapSymbols(heap)
  {
    var i := MinIndex(heap);
    (heap[i], RemoveAt(heap, i))
  }

  /** Prepends the marker `c` to every member codeword. */
  function Mark(c: char, ms: seq<Member>): (r: seq<Member>)
    ensures |r| == |ms|
    ensures forall i :: 0 <= i < |ms| ==> r[i] == (ms[i].0, [c] + ms[i].1)
  {
    seq(|ms|, i requires 0 <= i < |ms| => (ms[i].0, [c] + ms[i].1))
  }

  /** One step of the loop: `lo` gets the high marker, `hi` the low one, and the weights add up. */
  function Merge(lo: Node, hi: Node, hiChar: char, loChar: char): Node {
    Node(lo.weight + hi.weight, Mark(hiChar, lo.members) + Mark(loChar, hi.members))
  }

  /** Within one node, no member codeword is a prefix of another member's. */
  predicate PrefixFreeMembers(ms: seq<Member>) {
    forall i, j :: 0 <= i < |ms| && 0 <= j < |ms| && i != j ==> !IsPrefix(ms[i].1, ms[j].1)
  }

  /** What every node of the heap satisfies throughout the loop. */
  predicate NodeOk(n: Node, hiChar: char, loChar: char) {
    && |n.members| >= 1
    && (forall i :: 0 <= i < |n.members| ==> OverMarkers(n.members[i].1, hiChar, loChar))
    && (|n.members| >= 2 ==> forall i :: 0 <= i < |n.members| ==> n.members[i].1 != "")
    && (hiChar != loChar ==> PrefixFreeMembers(n.members))
  }

  /** The sum and symbols of a heap split over concatenation. */
  lemma {:induction false} Totals(a: seq<Node>, b: seq<Node>)
    ensures TotalWeight(a + b) == TotalWeight(a) + TotalWeight(b)
    ensures HeapSymbols(a + b) == HeapSymbols(a) + HeapSymbols(b)
  {
    if |a| > 0 {
      assert (a + b)[1..] == a[1..] + b;
      Totals(a[1..], b);
    } else {
      assert a + b == b;
    }
  }

  /** A merged node keeps the weight and symbols of its parts, and the node invariant. */
  lemma MergeProperties(lo: Node, hi: Node, hiChar: char, loChar: char)
    ensures Merge(lo, hi, hiChar, loChar).weight == lo.weight + hi.weight
    ensures multiset(Firsts(Merge(lo, hi, hiChar, loChar).members))
         == multiset(Firsts(lo.members)) + multiset(Firsts(hi.members))
    ensures NodeOk(lo, hiChar, loChar) && NodeOk(hi, hiChar, loChar) ==>
              NodeOk(Merge(lo, hi, hiChar, loChar), hiChar, loChar)
  {
    var a := Mark(hiChar, lo.members);
    var b := Mark(loChar, hi.members);
    var ms := a + b;
    assert Firsts(ms) == Firsts(lo.members) + Firsts(hi.members);
    if NodeOk(lo, hiChar, loChar) && NodeOk(hi, hiChar, loChar) {
      forall i | 0 <= i < |ms|
        ensures OverMarkers(ms[i].1, hiChar, loChar) && ms[i].1 != ""
      {
        if i < |a| {
          assert ms[i].1 == [hiChar] + lo.members[i].1;
        } else {
          assert ms[i].1 == [loChar] + hi.members[i - |a|].1;
        }
      }
      if hiChar != loChar {
        MergePrefixFree(lo, hi, hiChar, loChar);
      }
    }
  }

  /** The two halves of a merged node are told apart by their first marker. */
  lemma MergePrefixFree(lo: Node, hi: Node, hiChar: char, loChar: char)
    requires hiChar != loChar
    requires PrefixFreeMembers(lo.members) && PrefixFreeMembers(hi.members)
    ensures PrefixFreeMembers(Merge(lo, hi, hiChar, loChar).members)
  {
    var a := Mark(hiChar, lo.members);
    var b := Mark(loChar, hi.members);
    var ms := a + b;
    forall i, j | 0 <= i < |ms| && 0 <= j < |ms| && i != j
      ensures !IsPrefix(ms[i].1, ms[j].1)
    {
      if i < |a| && j < |a| {
        PrefixUnderMark(hiChar, lo.members[i].1, lo.members[j].1);
      } else if i >= |a| && j >= |a| {
        PrefixUnderMark(loChar, hi.members[i - |a|].1, hi.members[j - |a|].1);
      } else if i < |a| {
        PrefixDifferentMarks(hiChar, loChar, lo.members[i].1, hi.members[j - |a|].1);
      } else {
        PrefixDifferentMarks(loChar, hiChar, hi.members[i - |a|].1, lo.members[j].1);
      }
    }
  }

  /** Every node of the heap satisfies the node invariant. */
  predicate AllOk(heap: seq<Node>, hiChar: char, loChar: char) {
    forall n :: n in heap ==> NodeOk(n, hiChar, loChar)
  }

  /** One iteration of the loop: pop `lo`, pop `hi`, push their merge. */
  function Step(heap: seq<Node>, hiChar: char, loChar: char): (next: seq<Node>)
    requires |heap| >= 2
    ensures |next| == |heap| - 1
    ensures TotalWeight(next) == TotalWeight(heap)
    ensures HeapSymbols(next) == HeapSymbols(heap)
    ensures AllOk(heap, hiChar, loChar) ==> AllOk(next, hiChar, loChar)
    ensures AllOk(heap, hiChar, loChar) ==> |next[|next| - 1].members| >= 2
  {
    var (lo, rest) := ExtractMin(heap);
    var (hi, rest') := ExtractMin(rest);
    var merged := Merge(lo, hi, hiChar, loChar);
    InHeap(heap, lo, rest, hi, rest', hiChar, loChar);
    MergeProperties(lo, hi, hiChar, loChar);
    StepProperties(heap, lo, rest, hi, rest', merged, hiChar, loChar);
    rest' + [merged]
  }

  lemma StepProperties(heap: seq<Node>, lo: Node, rest: seq<Node>, hi: Node, rest': seq<Node>, merged: Node,
                       hiChar: char, loChar: char)
    requires multiset(rest) + multiset{lo} == multiset(heap)
    requires multiset(rest') + multiset{hi} == multiset(rest)
    requires TotalWeight(rest) + lo.weight == TotalWeight(heap)
    requires TotalWeight(rest') + hi.weight == TotalWeight(rest)
    requires HeapSymbols(rest) + multiset(Firsts(lo.members)) == HeapSymbols(heap)
    requires HeapSymbols(rest') + multiset(Firsts(hi.members)) == HeapSymbols(rest)
    requires merged == Merge(lo, hi, hiChar, loChar)
    ensures TotalWeight(rest' + [merged]) == TotalWeight(heap)
    ensures HeapSymbols(rest' + [merged]) == HeapSymbols(heap)
    ensures AllOk(heap, hiChar, loChar) ==> AllOk(rest' + [merged], hiChar, loChar)
  {
    MergeProperties(lo, hi, hiChar, loChar);
    Totals(rest', [merged]);
    Singleton(merged);
    if AllOk(heap, hiChar, loChar) {
      InHeap(heap, lo, rest, hi, rest', hiChar, loChar);
      StillOk(heap, lo, rest, hi, rest', merged, hiChar, loChar);
    }
  }

  /** The two popped nodes come from the heap, so they satisfy the invariant when it does. */
  lemma InHeap(heap: seq<Node>, lo: Node, rest: seq<Node>, hi: Node, rest': seq<Node>, hiChar: char, loChar: char)
    requires multiset(rest) + multiset{lo} == multiset(heap)
    requires multiset(rest') + multiset{hi} == multiset(rest)
    ensures AllOk(heap, hiChar, loChar) ==> NodeOk(lo, hiChar, loChar) && NodeOk(hi, hiChar, loChar)
  {
    assert lo in multiset(heap);
    assert hi in multiset(rest);
    assert hi in multiset(heap);
  }

  lemma Singleton(n: Node)
    ensures TotalWeight([n]) == n.weight
    ensures HeapSymbols([n]) == multiset(Firsts(n.members))
  {
    assert [n][1..] == [];
  }

  lemma StillOk(heap: seq<Node>, lo: Node, rest: seq<Node>, hi: Node, rest': seq<Node>, merged: Node,
                hiChar: char, loChar: char)
    requires multiset(rest) + multiset{lo} == multiset(heap)
    requires multiset(rest') + multiset{hi} == multiset(rest)
    requires AllOk(heap, hiChar, loChar)
    requires NodeOk(merged, hiChar, loChar)
    ensures AllOk(rest' + [merged], hiChar, loChar)
  {
    forall n | n in rest' + [merged]
      ensures NodeOk(n, hiChar, loChar)
    {
      if n != merged {
        assert n in multiset(rest');
        assert n in multiset(rest);
        assert n in multiset(heap);
      }
    }
  }

  /** The `while len(heap) > 1` loop followed by the final `heappop`. */
  function Combine(heap: seq<Node>, hiChar: char, loChar: char): (r: Result<Node>)
    ensures r.Failure? <==> |heap| == 0
    ensures r.Failure? ==> r.error == EmptyInput
    ensures |heap| == 1 ==> r == Success(heap[0])
    ensures r.Success? ==> r.value.weight == TotalWeight(heap)
    ensures r.Success? ==> multiset(Firsts(r.value.members)) == HeapSymbols(heap)
    ensures r.Success? && AllOk(heap, hiChar, loChar) ==> NodeOk(r.value, hiChar, loChar)
    ensures r.Success? && AllOk(heap, hiChar, loChar) && |heap| >= 2 ==> |r.value.members| >= 2
    decreases |heap|
  {
    if |heap| == 0 then Failure(EmptyInput)
    else if |heap| == 1 then
      assert heap[1..] == [];
      Success(heap[0])
    else
      var next := Step(heap, hiChar, loChar);
      assert |next| == 1 ==> next[|next| - 1] == next[0];
      Combine(next, hiChar, loChar)
  }

  /** The leaves carry the input weights and symbols, hold one symbol each with the empty
      codeword, and satisfy the node invariant. */
  lemma LeavesProperties(keys: seq<char>, weights: map<char, nat>, hiChar: char, loChar: char)
    requires forall k :: k in keys ==> k in weights
    ensures |Leaves(keys, weights)| == |keys|
    ensures TotalWeight(Leaves(keys, weights)) == SumWeights(keys, weights)
    ensures HeapSymbols(Leaves(keys, weights)) == multiset(keys)
    ensures AllOk(Leaves(keys, weights), hiChar, loChar)
    ensures forall n :: n in Leaves(keys, weights) ==> |n.members| == 1 && n.members[0].1 == ""
  {
    LeavesTotals(keys, weights);
    LeavesAreLeaves(keys, weights);
    forall n | n in Leaves(keys, weights)
      ensures NodeOk(n, hiChar, loChar)
    {
    }
  }

  lemma LeavesTotals(keys: seq<char>, weights: map<char, nat>)
    requires forall k :: k in keys ==> k in weights
    ensures |Leaves(keys, weights)| == |keys|
    ensures TotalWeight(Leaves(keys, weights)) == SumWeights(keys, weights)
    ensures HeapSymbols(Leaves(keys, weights)) == multiset(keys)
  {
    LeavesWeight(keys, weights);
    LeavesSymbols(keys, weights);
  }

  lemma {:induction false} LeavesWeight(keys: seq<char>, weights: map<char, nat>)
    requires forall k :: k in keys ==> k in weights
    ensures |Leaves(keys, weights)| == |keys|
    ensures TotalWeight(Leaves(keys, weights)) == SumWeights(keys, weights)
  {
    if |keys| > 0 {
      LeavesWeight(keys[1..], weights);
      assert Leaves(keys, weights)[1..] == Leaves(keys[1..], weights);
    }
  }

  lemma {:induction false} LeavesSymbols(keys: seq<char>, weights: map<char, nat>)
    requires forall k :: k in keys ==> k in weights
    ensures HeapSymbols(Leaves(keys, weights)) == multiset(keys)
  {
    if |keys| > 0 {
      var leaves := Leaves(keys, weights);
      LeavesSymbols(keys[1..], weights);
      assert leaves[1..] == Leaves(keys[1..], weights);
      assert leaves[0].members == [(keys[0], "")];
      assert Firsts(leaves[0].members) == [keys[0]];
      assert HeapSymbols(leaves) == multiset([keys[0]]) + HeapSymbols(leaves[1..]);
      assert keys == [keys[0]] + keys[1..];
      assert multiset(keys) == multiset([keys[0]]) + multiset(keys[1..]);
    }
  }

  /** Every leaf holds one symbol with the empty codeword. */
  lemma {:induction false} LeavesAreLeaves(keys: seq<char>, weights: map<char, nat>)
    requires forall k :: k in keys ==> k in weights
    ensures forall n :: n in Leaves(keys, weights) ==> |n.members| == 1 && n.members[0].1 == ""
  {
    if |keys| > 0 {
      LeavesAreLeaves(keys[1..], weights);
    }
  }

  /** `from_frequencies(freq_map, hi_char, lo_char)`: the symbol-to-codeword dictionary of the merged tree. */
  function FromFrequencies(freq: Dict<char, nat>, hiChar: char, loChar: char): (r: Result<Dict<char, string>>)
    ensures r.Failure? <==> |freq.keys| == 0
    ensures r.Failure? ==> r.error == EmptyInput
    ensures r.Success? ==> |r.value.keys| == |freq.keys|
    ensures r.Success? ==> forall c :: c in r.value.entries <==> c in freq.entries
    ensures r.Success? ==> forall c :: c in r.value.entries ==> OverMarkers(r.value.entries[c], hiChar, loChar)
    ensures r.Success? && hiChar != loChar ==> PrefixFree(r.value.entries)
    ensures r.Success? && |freq.keys| >= 2 ==> forall c :: c in r.value.entries ==> r.value.entries[c] != ""
    ensures r.Success? && |freq.keys| == 1 ==> r.value.entries == map[freq.keys[0] := ""]
  {
    var leaves := Leaves(freq.keys, freq.entries);
    LeavesProperties(freq.keys, freq.entries, hiChar, loChar);
    var r := Combine(leaves, hiChar, loChar);
    if r.Failure? then Failure(r.error)
    else
      var root := r.value;
      RootTable(root, freq, hiChar, loChar);
      if |freq.keys| == 1 then
        SingleLeaf(freq);
        Success(FromPairs(root.members))
      else
        Success(FromPairs(root.members))
  }

  /** With one symbol the loop never runs and the only codeword is empty. */
  lemma SingleLeaf(freq: Dict<char, nat>)
    requires |freq.keys| == 1
    ensures Leaves(freq.keys, freq.entries) == [Node(freq.entries[freq.keys[0]], [(freq.keys[0], "")])]
    ensures FromPairs([(freq.keys[0], "")]).entries == map[freq.keys[0] := ""]
  {
    var k := freq.keys[0];
    assert k in freq.entries;
    assert freq.keys[1..] == [];
    var ps := [(k, "")];
    assert Firsts(ps) == [k];
    assert LastOccurrence(ps, 0);
  }

  /** `dict(members)` when the members name distinct symbols: each member's codeword, in member order. */
  lemma MembersDict(ms: seq<Member>)
    requires NoDups(Firsts(ms))
    ensures FromPairs(ms).keys == Firsts(ms)
    ensures forall i :: 0 <= i < |ms| ==> FromPairs(ms).entries[ms[i].0] == ms[i].1
  {
    FromDistinctPairs(ms);
  }

  /** Every key of `dict(members)` is some member's symbol, mapped to that member's codeword. */
  lemma MemberOf(ms: seq<Member>, c: char) returns (i: nat)
    requires NoDups(Firsts(ms))
    requires c in FromPairs(ms).entries
    ensures i < |ms| && ms[i].0 == c && FromPairs(ms).entries[c] == ms[i].1
  {
    MembersDict(ms);
    i :| 0 <= i < |Firsts(ms)| && Firsts(ms)[i] == c;
  }

  /** Turns the invariant of the final node into facts about `dict(members)`. */
  lemma RootTable(root: Node, freq: Dict<char, nat>, hiChar: char, loChar: char)
    requires multiset(Firsts(root.members)) == multiset(freq.keys)
    requires NodeOk(root, hiChar, loChar)
    ensures |FromPairs(root.members).keys| == |freq.keys|
    ensures forall c :: c in FromPairs(root.members).entries <==> c in freq.entries
    ensures forall c :: c in FromPairs(root.members).entries ==>
              OverMarkers(FromPairs(root.members).entries[c], hiChar, loChar)
    ensures hiChar != loChar ==> PrefixFree(FromPairs(root.members).entries)
    ensures |freq.keys| >= 2 ==> forall c :: c in FromPairs(root.members).entries ==>
              FromPairs(root.members).entries[c] != ""
  {
    var ms := root.members;
    NoDupsMultiset(freq.keys);
    MultisetNoDups(Firsts(ms));
    RootKeys(ms, freq);
    RootCodes(root, hiChar, loChar);
    if hiChar != loChar {
      RootPrefixFree(ms);
    }
  }

  lemma RootKeys(ms: seq<Member>, freq: Dict<char, nat>)
    requires multiset(Firsts(ms)) == multiset(freq.keys)
    requires NoDups(Firsts(ms))
    ensures |FromPairs(ms).keys| == |freq.keys|
    ensures forall c :: c in FromPairs(ms).entries <==> c in freq.entries
  {
    MembersDict(ms);
    assert |Firsts(ms)| == |multiset(Firsts(ms))| == |multiset(freq.keys)| == |freq.keys|;
    forall c
      ensures c in FromPairs(ms).entries <==> c in freq.entries
    {
      assert c in Firsts(ms) <==> c in multiset(Firsts(ms));
      assert c in freq.keys <==> c in multiset(freq.keys);
    }
  }

  lemma RootCodes(root: Node, hiChar: char, loChar: char)
    requires NoDups(Firsts(root.members))
    requires NodeOk(root, hiChar, loChar)
    ensures forall c :: c in FromPairs(root.members).entries ==>
              OverMarkers(FromPairs(root.members).entries[c], hiChar, loChar)
              && (|root.members| >= 2 ==> FromPairs(root.members).entries[c] != "")
  {
    forall c | c in FromPairs(root.members).entries
      ensures OverMarkers(FromPairs(root.members).entries[c], hiChar, loChar)
      ensures |root.members| >= 2 ==> FromPairs(root.members).entries[c] != ""
    {
      var i := MemberOf(root.members, c);
    }
  }

  lemma RootPrefixFree(ms: seq<Member>)
    requires NoDups(Firsts(ms))
    requires PrefixFreeMembers(ms)
    ensures PrefixFree(FromPairs(ms).entries)
  {
    var d := FromPairs(ms);
    forall a, b | a in d.entries && b in d.entries && a != b
      ensures !IsPrefix(d.entries[a], d.entries[b])
    {
      var i := MemberOf(ms, a);
      var j := MemberOf(ms, b);
    }
  }

  /** The final node weighs as much as all input frequencies together and holds each symbol once. */
  lemma Root(freq: Dict<char, nat>, hiChar: char, loChar: char)
    requires |freq.keys| > 0
    ensures Combine(Leaves(freq.keys, freq.entries), hiChar, loChar).Success?
    ensures Combine(Leaves(freq.keys, freq.entries), hiChar, loChar).value.weight
         == SumWeights(freq.keys, freq.entries)
    ensures multiset(Firsts(Combine(Leaves(freq.keys, freq.entries), hiChar, loChar).value.members))
         == multiset(freq.keys)
    ensures NoDups(Firsts(Combine(Leaves(freq.keys, freq.entries), hiChar, loChar).value.members))
  {
    LeavesProperties(freq.keys, freq.entries, hiChar, loChar);
    var root := Combine(Leaves(freq.keys, freq.entries), hiChar, loChar).value;
    NoDupsMultiset(freq.keys);
    MultisetNoDups(Firsts(root.members));
  }
}
