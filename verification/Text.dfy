/** Byte strings, occurrences of one string in another, and a few list helpers
    that every other module uses. A Rust `String` is the sequence of its UTF-8 bytes. */
module Text {

  type byte = x: int | 0 <= x < 256

  type Bytes = seq<byte>

  datatype Option<+T> = None | Some(value: T)

  function Min(a: int, b: int): int { if a < b then a else b }

  function Max(a: int, b: int): int { if a < b then b else a }

  /** `p` stands in `s` at byte offset `i`. */
  predicate OccursAt(s: Bytes, p: Bytes, i: int) {
    0 <= i && i + |p| <= |s| && s[i..i + |p|] == p
  }

  lemma OccursInside(s: Bytes, p: Bytes, i: int)
    requires OccursAt(s, p, i)
    ensures 0 <= i && i + |p| <= |s|
  {}

  /** Dropping `c` bytes in front moves every occurrence by `c`. */
  lemma OccursInSuffix(s: Bytes, p: Bytes, c: nat, i: nat)
    requires c <= |s|
    ensures OccursAt(s[c..], p, i) <==> OccursAt(s, p, c + i)
  {
    if c + i + |p| <= |s| {
      assert s[c..][i..i + |p|] == s[c + i..c + i + |p|];
    }
  }

  /** An occurrence that ends inside a prefix is an occurrence in that prefix. */
  lemma OccursInPrefix(s: Bytes, t: Bytes, p: Bytes, i: nat)
    requires i + |p| <= |s|
    ensures OccursAt(s + t, p, i) <==> OccursAt(s, p, i)
  {
    assert (s + t)[i..i + |p|] == s[i..i + |p|];
  }

  /** The bytes of an occurrence, one by one. */
  lemma OccursIndex(s: Bytes, p: Bytes, i: nat, k: nat)
    requires OccursAt(s, p, i) && k < |p|
    ensures s[i + k] == p[k]
  {
    assert s[i..i + |p|][k] == s[i + k];
  }
}
