/** str.h: a string is a view of `len` bytes starting at `ptr`. */
module StrView {

  /** A str_t: the bytes reachable from ptr, of which the first len are the string. */
  datatype View = View(ptr: seq<char>, len: nat)

  /** Every str_t the compiler builds has its len bytes behind ptr. */
  type Str = v: View | v.len <= |v.ptr| witness View([], 0)

  /** The bytes a string stands for. */
  function Bytes(s: Str): seq<char>
  {
    s.ptr[..s.len]
  }

  /** STR(lit): the literal with its terminating NUL behind ptr, and a length
      (sizeof minus one) that leaves that NUL out. */
  function Lit(lit: string): (s: Str)
    ensures s.len == |lit|
    ensures Bytes(s) == lit
  {
    var withNul := lit + ['\0'];
    View(withNul, |withNul| - 1)
  }

  /** str_eq: different lengths are unequal; otherwise compare byte by byte. */
  function Eq(a: Str, b: Str): (r: bool)
    ensures r <==> a.len == b.len && forall i :: 0 <= i < a.len ==> a.ptr[i] == b.ptr[i]
  {
    a.len == b.len && EqFrom(a, b, 0)
  }

  /** The comparison loop of str_eq from index i on, leaving at the first mismatch. */
  function EqFrom(a: Str, b: Str, i: nat): (r: bool)
    requires a.len == b.len && i <= a.len
    ensures r <==> forall k :: i <= k < a.len ==> a.ptr[k] == b.ptr[k]
    decreases a.len - i
  {
    if i == a.len then true
    else if a.ptr[i] != b.ptr[i] then false
    else EqFrom(a, b, i + 1)
  }

  /** str_dup: a buffer of exactly len bytes holding a copy of the string. */
  function Dup(s: Str): (d: Str)
    ensures d.len == s.len && |d.ptr| == s.len
    ensures Bytes(d) == Bytes(s)
  {
    View(s.ptr[..s.len], s.len)
  }

  /** str_eq decides equality of the strings' bytes. */
  lemma EqIffSameBytes(a: Str, b: Str)
    ensures Eq(a, b) <==> Bytes(a) == Bytes(b)
  {
    if Eq(a, b) {
      assert forall i :: 0 <= i < a.len ==> Bytes(a)[i] == Bytes(b)[i];
    }
    if Bytes(a) == Bytes(b) {
      assert |Bytes(a)| == a.len && |Bytes(b)| == b.len;
      assert forall i :: 0 <= i < a.len ==> a.ptr[i] == Bytes(a)[i] == Bytes(b)[i] == b.ptr[i];
    }
  }

  /** str_eq is reflexive and symmetric. */
  lemma EqReflexiveSymmetric(a: Str, b: Str)
    ensures Eq(a, a)
    ensures Eq(a, b) == Eq(b, a)
  {
    EqIffSameBytes(a, a);
    EqIffSameBytes(a, b);
    EqIffSameBytes(b, a);
  }

  /** A duplicate compares equal to its original. */
  lemma DupEq(s: Str)
    ensures Eq(Dup(s), s) && Eq(s, Dup(s))
  {
    EqIffSameBytes(Dup(s), s);
    EqIffSameBytes(s, Dup(s));
  }
}
