/** Bytes, byte strings and the small amount of shared vocabulary of the model. */
module Bytes {
  type Byte = b: int | 0 <= b < 256
  type Text = seq<Byte>

  datatype Option<+T> = None | Some(value: T)

  /** No element of `s` stands in it twice. */
  ghost predicate Distinct<T>(s: seq<T>) {
    forall i, j :: 0 <= i < j < |s| ==> s[i] != s[j]
  }

  /** `t` stands in `c` at offset `off`. */
  ghost predicate At(c: Text, off: nat, t: Text) {
    off + |t| <= |c| && c[off..off + |t|] == t
  }

  lemma AtSplit(c: Text, off: nat, a: Text, b: Text)
    requires At(c, off, a + b)
    ensures At(c, off, a) && At(c, off + |a|, b)
  {
    assert a == (a + b)[..|a|] && b == (a + b)[|a|..];
    assert c[off..off + |a|] == c[off..off + |a + b|][..|a|];
    assert c[off + |a|..off + |a| + |b|] == c[off..off + |a + b|][|a|..];
  }

  lemma AtByte(c: Text, off: nat, t: Text, i: nat)
    requires At(c, off, t) && i < |t|
    ensures c[off + i] == t[i]
  {
    assert c[off..off + |t|][i] == t[i];
  }

  /** No byte of `t` is the C string terminator. */
  ghost predicate NulFree(t: Text) {
    forall i :: 0 <= i < |t| ==> t[i] != 0
  }

  /** What a C reader sees of the buffer `t`: everything before the first NUL. */
  function CString(t: Text): (r: Text)
    ensures |r| <= |t| && r == t[..|r|] && NulFree(r)
    ensures |r| < |t| ==> t[|r|] == 0
  {
    if t == [] || t[0] == 0 then [] else [t[0]] + CString(t[1..])
  }

  lemma CStringOfNulFree(t: Text)
    requires NulFree(t)
    ensures CString(t) == t
  {
  }

  /** Bytes of a source string literal. */
  function Ascii(s: string): (t: Text)
    ensures |t| == |s|
    ensures forall i :: 0 <= i < |s| ==> t[i] == if s[i] as int < 256 then s[i] as int else 63
  {
    seq(|s|, i requires 0 <= i < |s| => if s[i] as int < 256 then s[i] as int else 63)
  }
}
