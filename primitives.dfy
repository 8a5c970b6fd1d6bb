/** Platform primitives the canonicaliser leans on: nullable values, 32-bit
    signed integers with C#'s unchecked wrap-around, ordinal string order,
    whitespace trimming and decimal formatting of integers. */
module Primitives {

  /** A value that may be absent; `None` stands for a C# `null` reference. */
  datatype Option<+T> = None | Some(value: T)

  /** C#'s `int`. */
  type Int32 = x: int | -0x8000_0000 <= x < 0x8000_0000

  /** The value an `unchecked` C# computation leaves in an `int`: the
      representative of `x` modulo 2^32 in the signed range. */
  function Wrap32(x: int): (r: Int32)
    ensures (x - r) % 0x1_0000_0000 == 0
  {
    var m := x % 0x1_0000_0000;
    if m < 0x8000_0000 then m else m - 0x1_0000_0000
  }

  /** Two's complement bit pattern of an `int`. */
  function ToBits(x: Int32): bv32 {
    (if x < 0 then x + 0x1_0000_0000 else x) as bv32
  }

  /** The `int` whose two's complement bit pattern is `b`. */
  function FromBits(b: bv32): Int32 {
    var n := b as int;
    if n < 0x8000_0000 then n else n - 0x1_0000_0000
  }

  /** `a ^ b` on `int`s. */
  function Xor32(a: Int32, b: Int32): Int32 {
    FromBits(ToBits(a) ^ ToBits(b))
  }

  // ---------------------------------------------------------------------
  // Ordinal string order, the model of the string comparison used by
  // LINQ's OrderBy over string keys.

  /** `a` sorts before or together with `b` in lexicographic order of code points. */
  predicate StrLe(a: string, b: string)
    decreases |a|
  {
    |a| == 0 || (|b| > 0 && (a[0] < b[0] || (a[0] == b[0] && StrLe(a[1..], b[1..]))))
  }

  lemma {:induction false} StrLeTotal(a: string, b: string)
    ensures StrLe(a, b) || StrLe(b, a)
    decreases |a|
  {
    if |a| > 0 && |b| > 0 && a[0] == b[0] {
      StrLeTotal(a[1..], b[1..]);
    }
  }

  lemma {:induction false} StrLeTransitive(a: string, b: string, c: string)
    requires StrLe(a, b) && StrLe(b, c)
    ensures StrLe(a, c)
    decreases |a|
  {
    if |a| > 0 && a[0] == b[0] && b[0] == c[0] {
      StrLeTransitive(a[1..], b[1..], c[1..]);
    }
  }

  lemma {:induction false} StrLeAntisymmetric(a: string, b: string)
    requires StrLe(a, b) && StrLe(b, a)
    ensures a == b
    decreases |a|
  {
    if |a| > 0 {
      StrLeAntisymmetric(a[1..], b[1..]);
      assert a == [a[0]] + a[1..];
      assert b == [b[0]] + b[1..];
    }
  }

  /** Strings that agree up to a place where the first has the smaller
      character are strictly ordered. */
  lemma {:induction false} StrLeFirstDifference(a: string, b: string, k: nat)
    requires k < |a| && k < |b| && a[..k] == b[..k] && a[k] < b[k]
    ensures StrLe(a, b) && !StrLe(b, a)
    decreases k
  {
    if k > 0 {
      assert a[0] == a[..k][0] && b[0] == b[..k][0];
      assert a[1..][..k - 1] == a[..k][1..] && b[1..][..k - 1] == b[..k][1..];
      StrLeFirstDifference(a[1..], b[1..], k - 1);
    }
  }

  // ---------------------------------------------------------------------
  // Trimming

  /** The white-space characters below U+0100 that `char.IsWhiteSpace` accepts. */
  predicate IsWhiteSpace(c: char) {
    c == ' ' || ('\t' <= c <= '\r') || c == '\U{85}' || c == '\U{A0}'
  }

  predicate AllWhiteSpace(s: string) {
    forall i :: 0 <= i < |s| ==> IsWhiteSpace(s[i])
  }

  /** `s` without its leading white space: a suffix of `s` that does not
      start with white space. */
  function TrimStart(s: string): (r: string)
    ensures |r| <= |s| && r == s[|s| - |r|..]
    ensures |r| > 0 ==> !IsWhiteSpace(r[0])
  {
    if |s| > 0 && IsWhiteSpace(s[0]) then TrimStart(s[1..]) else s
  }

  /** `s` without its trailing white space: a prefix of `s` that does not
      end with white space. */
  function TrimEnd(s: string): (r: string)
    ensures |r| <= |s| && r == s[..|r|]
    ensures |r| > 0 ==> !IsWhiteSpace(r[|r| - 1])
  {
    if |s| > 0 && IsWhiteSpace(s[|s| - 1]) then TrimEnd(s[..|s| - 1]) else s
  }

  /** `string.Trim()`: the string without its leading and trailing white space. */
  function Trim(s: string): (r: string)
    ensures |r| <= |s|
    ensures |r| > 0 ==> !IsWhiteSpace(r[0]) && !IsWhiteSpace(r[|r| - 1])
  {
    TrimEnd(TrimStart(s))
  }

  /** A value with no white space at either end is its own trimmed form. */
  lemma TrimUnpadded(s: string)
    requires |s| > 0 ==> !IsWhiteSpace(s[0]) && !IsWhiteSpace(s[|s| - 1])
    ensures Trim(s) == s
  {
  }

  lemma {:induction false} TrimStartAllWhiteSpace(s: string)
    requires AllWhiteSpace(s)
    ensures TrimStart(s) == []
  {
    if |s| > 0 {
      TrimStartAllWhiteSpace(s[1..]);
    }
  }

  lemma {:induction false} TrimStartSkipsPrefix(pre: string, v: string)
    requires AllWhiteSpace(pre)
    ensures TrimStart(pre + v) == TrimStart(v)
  {
    var w := pre + v;
    if |pre| == 0 {
      assert w == v;
    } else {
      assert TrimStart(w) == TrimStart(pre[1..] + v) by {
        assert w[0] == pre[0];
        assert w[1..] == pre[1..] + v;
      }
      assert AllWhiteSpace(pre[1..]) by {
        forall i | 0 <= i < |pre| - 1 ensures IsWhiteSpace(pre[1..][i]) {
          assert pre[1..][i] == pre[i + 1];
        }
      }
      TrimStartSkipsPrefix(pre[1..], v);
    }
  }

  lemma {:induction false} TrimEndSkipsSuffix(v: string, post: string)
    requires AllWhiteSpace(post)
    ensures TrimEnd(v + post) == TrimEnd(v)
    decreases |post|
  {
    if |post| > 0 {
      var p := post[..|post| - 1];
      assert (v + post)[..|v + post| - 1] == v + p;
      TrimEndSkipsSuffix(v, p);
    } else {
      assert v + post == v;
    }
  }

  lemma {:induction false} TrimStartAppend(v: string, post: string)
    requires AllWhiteSpace(post)
    ensures TrimStart(v + post) == TrimStart(v) + post
         || (TrimStart(v) == [] && TrimStart(v + post) == [])
  {
    if |v| == 0 {
      assert v + post == post;
      TrimStartAllWhiteSpace(post);
    } else if IsWhiteSpace(v[0]) {
      assert (v + post)[1..] == v[1..] + post;
      TrimStartAppend(v[1..], post);
    }
  }

  /** Trimming ignores any white space padded around a value. */
  lemma TrimIgnoresPadding(pre: string, v: string, post: string)
    requires AllWhiteSpace(pre) && AllWhiteSpace(post)
    ensures Trim(pre + v + post) == Trim(v)
  {
    assert pre + v + post == pre + (v + post);
    TrimStartSkipsPrefix(pre, v + post);
    TrimStartAppend(v, post);
    if TrimStart(v + post) == TrimStart(v) + post {
      TrimEndSkipsSuffix(TrimStart(v), post);
    }
  }

  // ---------------------------------------------------------------------
  // Decimal formatting, as `int.ToString()` with the invariant culture.

  function DigitChar(d: nat): char
    requires d < 10
  {
    (('0' as int) + d) as char
  }

  function NatToString(n: nat): (r: string)
    ensures |r| > 0
    decreases n
  {
    if n < 10 then [DigitChar(n)] else NatToString(n / 10) + [DigitChar(n % 10)]
  }

  function IntToString(i: int): string {
    if i < 0 then "-" + NatToString(-i) else NatToString(i)
  }
}
