/** Bytes, and text standing inside other text. */
module Bytes {

  /** An unsigned byte (`uint8_t`, or a `char` read through `unsigned char`). */
  newtype byte = x: int | 0 <= x < 256

  const PLUS: byte := 43
  const MINUS: byte := 45
  const DOT: byte := 46
  const ZERO: byte := 48

  const CAPITALS := "ABCDEFGHIJKLMNOPQRSTUVWXYZ"
  const LETTERS := "abcdefghijklmnopqrstuvwxyz"
  const FIGURES := "0123456789"

  /** Bytes that `isspace` accepts. */
  predicate IsCSpace(c: byte) {
    c == 32 || 9 <= c <= 13
  }

  /** The byte at a position, NUL behind the end. */
  function ByteAt(text: seq<byte>, p: nat): byte {
    if p < |text| then text[p] else 0
  }

  lemma Regroup<T>(done: seq<T>, a: seq<T>, b: seq<T>, total: seq<T>)
    requires done + (a + b) == total
    ensures done + a + b == total
  {
  }

  /** `s` stands in `src` at position `ip`. */
  ghost predicate At<T>(src: seq<T>, ip: nat, s: seq<T>) {
    ip + |s| <= |src| && src[ip..ip + |s|] == s
  }

  lemma AtSplit<T>(src: seq<T>, ip: nat, s: seq<T>, t: seq<T>)
    requires At(src, ip, s + t)
    ensures At(src, ip, s) && At(src, ip + |s|, t)
  {
    assert (s + t)[..|s|] == s && (s + t)[|s|..] == t;
    assert src[ip..ip + |s|] == src[ip..ip + |s + t|][..|s|];
    assert src[ip + |s|..ip + |s + t|] == src[ip..ip + |s + t|][|s|..];
  }

  lemma AtFirst<T>(src: seq<T>, ip: nat, s: seq<T>)
    requires At(src, ip, s)
    ensures forall i :: 0 <= i < |s| ==> src[ip + i] == s[i]
  {
    forall i | 0 <= i < |s|
      ensures src[ip + i] == s[i]
    {
      assert src[ip..ip + |s|][i] == s[i];
    }
  }

  lemma AtBounds<T>(src: seq<T>, ip: nat, s: seq<T>)
    requires At(src, ip, s)
    ensures ip + |s| <= |src|
  {
  }

  lemma AtAll(s: seq<byte>)
    ensures At(s, 0, s)
  {
  }

  lemma AtHead(src: seq<byte>, p: nat, s: seq<byte>)
    requires At(src, p, s)
    ensures s != [] ==> ByteAt(src, p) == s[0]
  {
    AtFirst(src, p, s);
  }

  // ---- C strings ------------------------------------------------------------------------

  predicate NoNul(s: seq<byte>) {
    forall i :: 0 <= i < |s| ==> s[i] != 0
  }

  /** A byte buffer read as a C string: up to the first NUL. */
  function CString(s: seq<byte>): seq<byte> {
    if s == [] || s[0] == 0 then [] else [s[0]] + CString(s[1..])
  }

  lemma {:induction false} CStringPrefix(s: seq<byte>)
    ensures |CString(s)| <= |s| && CString(s) == s[..|CString(s)|] && NoNul(CString(s))
    ensures |CString(s)| < |s| ==> s[|CString(s)|] == 0
  {
    if s != [] && s[0] != 0 {
      CStringPrefix(s[1..]);
    }
  }

  lemma {:induction false} CStringIs(s: seq<byte>, n: nat)
    requires n < |s| && s[n] == 0 && NoNul(s[..n])
    ensures CString(s) == s[..n]
  {
    if n > 0 {
      assert s[..n][0] == s[0] && s[1..][..n - 1] == s[..n][1..];
      CStringIs(s[1..], n - 1);
    }
  }

  lemma {:induction false} CStringStops(s: seq<byte>, n: nat)
    requires n < |s| && s[n] == 0
    ensures |CString(s)| <= n
  {
    if n > 0 && s[0] != 0 {
      CStringStops(s[1..], n - 1);
    }
  }

  lemma {:induction false} CStringWhole(s: seq<byte>)
    requires NoNul(s)
    ensures CString(s) == s
  {
    if s != [] {
      CStringWhole(s[1..]);
    }
  }

  /** A text and a NUL at the start of a buffer. */
  lemma CStringTerminated(s: seq<byte>, buffer: seq<byte>)
    requires |s| < |buffer| && buffer[..|s|] == s && buffer[|s|] == 0
    ensures CString(buffer) == CString(s)
  {
    CStringPrefix(s);
    var n := |CString(s)|;
    assert forall i :: 0 <= i < |s| ==> buffer[i] == s[i];
    assert buffer[..n] == CString(s);
    CStringIs(buffer, n);
  }
}
