/** Byte strings as the wrapper handles them: C strings end at the first NUL,
    and names compare after ASCII case folding.
 */
module Bytes {

  type byte = b: int | 0 <= b < 256

  type bytes = seq<byte>

  const NUL: byte := 0
  const DOT: byte := 46
  const EQUALS: byte := 61
  const UNDERSCORE: byte := 95

  /** A NUL-terminated argument, without its terminator. */
  type cstring = s: bytes | NUL !in s

  /** The octets of a text. */
  function Ascii(s: string): (r: bytes)
    ensures |r| == |s|
  {
    seq(|s|, i requires 0 <= i < |s| => s[i] as int % 256)
  }

  /** The first position of `b`, or the length of `s`. */
  function Find(s: bytes, b: byte): (i: nat)
    ensures i <= |s| && b !in s[..i] && (i < |s| ==> s[i] == b)
  {
    if s == [] || s[0] == b then 0
    else
      var i := Find(s[1..], b);
      assert s[..i + 1] == [s[0]] + s[1..][..i];
      i + 1
  }

  lemma FindIsUnique(s: bytes, b: byte, i: nat)
    requires i <= |s| && b !in s[..i] && (i < |s| ==> s[i] == b)
    ensures Find(s, b) == i
  {
    var f := Find(s, b);
    assert forall k | 0 <= k < i :: s[..i][k] == s[k];
    assert forall k | 0 <= k < f :: s[..f][k] == s[k];
  }

  function Lower(b: byte): byte {
    if 65 <= b <= 90 then b + 32 else b
  }

  /** Two octets fold to the same exactly if they are the same or the two cases of a letter. */
  lemma SameFold(b: byte, c: byte)
    ensures Lower(b) == Lower(c) <==>
            || b == c
            || ('A' as int <= b <= 'Z' as int && c - b == 'a' as int - 'A' as int)
            || ('A' as int <= c <= 'Z' as int && b - c == 'a' as int - 'A' as int)
  {
  }

  function Fold(s: bytes): (f: bytes)
    ensures |f| == |s|
  {
    seq(|s|, i requires 0 <= i < |s| => Lower(s[i]))
  }

  /** Strings that `mg_casecmp` calls equal are those with the same canonical form: it
      folds ASCII case and stops at the first NUL. */
  function Canon(s: bytes): bytes {
    if s == [] || s[0] == NUL then [] else [Lower(s[0])] + Canon(s[1..])
  }

  lemma {:induction false} CanonOfCString(s: cstring)
    ensures Canon(s) == Fold(s)
  {
    if s != [] {
      CanonOfCString(s[1..]);
    }
  }

  lemma {:induction false} CanonConcat(a: bytes, b: bytes)
    ensures Canon(a + b) == if NUL in a then Canon(a) else Canon(a) + Canon(b)
  {
    if a == [] {
      assert a + b == b;
    } else if a[0] != NUL {
      assert (a + b)[1..] == a[1..] + b;
      CanonConcat(a[1..], b);
    }
  }

  lemma {:induction false} CanonIsClean(s: bytes)
    ensures |Canon(s)| <= |s| && (NUL !in s ==> |Canon(s)| == |s|)
    ensures forall k | 0 <= k < |Canon(s)| :: Canon(s)[k] == Lower(s[k])
  {
    if s != [] && s[0] != NUL {
      CanonIsClean(s[1..]);
    }
  }
}
