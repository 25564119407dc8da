/** Character classes and string relations shared by the encoder and the decoder.

    The program runs under Python 2 on byte strings, so `str.isalpha` and the
    regular-expression class `\w` are their ASCII versions. */
module Text {

  /** `c.isalpha()` on a one-character string: an ASCII letter. */
  predicate IsAlpha(c: char) {
    ('a' <= c <= 'z') || ('A' <= c <= 'Z')
  }

  /** The regular-expression class `\w`: letters, digits and underscore. */
  predicate IsWordChar(c: char) {
    IsAlpha(c) || ('0' <= c <= '9') || c == '_'
  }

  /** True iff `a` is a prefix of `b` (every string is a prefix of itself). */
  predicate IsPrefix(a: string, b: string) {
    |a| <= |b| && b[..|a|] == a
  }

  /** True iff `code` is a string over the two markers `hi` and `lo`. */
  predicate OverMarkers(code: string, hi: char, lo: char) {
    forall k :: 0 <= k < |code| ==> code[k] == hi || code[k] == lo
  }

  /** The default markers of the tree builder, and the only ones the table parser accepts. */
  const HiMarker: char := 'G'
  const LoMarker: char := 'g'

  predicate IsMarker(c: char) {
    c == HiMarker || c == LoMarker
  }

  /** No codeword of the table is a prefix of the codeword of another symbol. */
  predicate PrefixFree<K>(m: map<K, string>) {
    forall a, b :: a in m && b in m && a != b ==> !IsPrefix(m[a], m[b])
  }

  /** Distinct symbols have distinct codewords. */
  predicate Injective<K, V(==)>(m: map<K, V>) {
    forall a, b :: a in m && b in m && a != b ==> m[a] != m[b]
  }

  /** A prefix-free table is injective: equal codewords are prefixes of each other. */
  lemma PrefixFreeIsInjective<K>(m: map<K, string>)
    requires PrefixFree(m)
    ensures Injective(m)
  {
    forall a, b | a in m && b in m && a != b
      ensures m[a] != m[b]
    {
      assert !IsPrefix(m[a], m[b]);
    }
  }

  /** Prepending the same character keeps the prefix relation unchanged. */
  lemma PrefixUnderMark(c: char, a: string, b: string)
    ensures IsPrefix([c] + a, [c] + b) <==> IsPrefix(a, b)
  {
    if IsPrefix([c] + a, [c] + b) {
      assert b[..|a|] == ([c] + b)[1..|a| + 1];
      assert a == ([c] + a)[1..];
    }
    if IsPrefix(a, b) {
      assert ([c] + b)[..|a| + 1] == [c] + b[..|a|];
    }
  }

  /** Strings that start with different characters are never prefixes of each other. */
  lemma PrefixDifferentMarks(c: char, d: char, a: string, b: string)
    requires c != d
    ensures !IsPrefix([c] + a, [d] + b)
  {
    if |[c] + a| <= |[d] + b| {
      assert ([d] + b)[..|a| + 1][0] == d;
    }
  }
}
