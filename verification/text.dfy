/** Option, as the source's `null`/`undefined` fields and nullable results need it. */
module Wrappers {
  datatype Option<+T> = None | Some(value: T)
}

/**
  The string built-ins the dashboard relies on: `String.prototype.trim`,
  `startsWith`, `toLowerCase` and `includes`. Strings are sequences of
  characters; `trim` strips the whitespace and line terminators of
  ECMAScript (section 12.2 and 12.3 of ECMA-262), compared by code point.
 */
module Text {

  /** The characters `trim` removes: ECMAScript WhiteSpace and LineTerminator. */
  predicate IsSpace(c: char) {
    var n := c as int;
    n == 0x09 || n == 0x0A || n == 0x0B || n == 0x0C || n == 0x0D || n == 0x20
    || n == 0xA0 || n == 0x1680 || (0x2000 <= n <= 0x200A)
    || n == 0x2028 || n == 0x2029 || n == 0x202F || n == 0x205F
    || n == 0x3000 || n == 0xFEFF
  }

  predicate AllSpace(s: string) {
    forall i :: 0 <= i < |s| ==> IsSpace(s[i])
  }

  /** Drops leading whitespace. */
  function TrimStart(s: string): (r: string)
    ensures |r| <= |s|
    ensures r == [] || !IsSpace(r[0])
  {
    if s != [] && IsSpace(s[0]) then TrimStart(s[1..]) else s
  }

  /** `TrimStart` drops a whitespace-only prefix and keeps the rest. */
  lemma {:induction false} TrimStartSuffix(s: string)
    ensures TrimStart(s) == s[|s| - |TrimStart(s)|..]
    ensures AllSpace(s[..|s| - |TrimStart(s)|])
  {
    if s != [] && IsSpace(s[0]) {
      TrimStartSuffix(s[1..]);
      var k := |s| - |TrimStart(s)|;
      assert s[1..][k - 1..] == s[k..];
      assert forall i :: 1 <= i < k ==> s[..k][i] == s[1..][..k - 1][i - 1];
    }
  }

  /** Drops trailing whitespace. */
  function TrimEnd(s: string): (r: string)
    ensures |r| <= |s|
    ensures r == [] || !IsSpace(r[|r| - 1])
  {
    if s != [] && IsSpace(s[|s| - 1]) then TrimEnd(s[..|s| - 1]) else s
  }

  /** `TrimEnd` keeps a prefix and drops a whitespace-only suffix. */
  lemma {:induction false} TrimEndPrefix(s: string)
    ensures TrimEnd(s) == s[..|TrimEnd(s)|]
    ensures AllSpace(s[|TrimEnd(s)|..])
  {
    if s != [] && IsSpace(s[|s| - 1]) {
      var p := s[..|s| - 1];
      TrimEndPrefix(p);
      var k := |TrimEnd(s)|;
      assert p[..k] == s[..k];
      assert forall j :: 0 <= j < |p| - k ==> s[k..][j] == p[k..][j];
    }
  }

  /** `s.trim()`. It is empty exactly when `s` is blank, and never begins or ends in whitespace. */
  function Trim(s: string): (r: string)
    ensures |r| <= |s|
    ensures r == [] <==> AllSpace(s)
    ensures r != [] ==> !IsSpace(r[0]) && !IsSpace(r[|r| - 1])
  {
    TrimBothEnds(s);
    TrimEnd(TrimStart(s))
  }

  lemma TrimBothEnds(s: string)
    ensures TrimEnd(TrimStart(s)) == [] <==> AllSpace(s)
    ensures TrimEnd(TrimStart(s)) != [] ==> !IsSpace(TrimEnd(TrimStart(s))[0])
  {
    var t := TrimStart(s);
    var k := |s| - |t|;
    TrimStartSuffix(s);
    TrimEndPrefix(t);
    if TrimEnd(t) == [] {
      assert t[0..] == t;
      assert t == [];
      assert s[..k] == s;
    } else {
      assert TrimEnd(t)[0] == t[0];
    }
  }

  /**
    `Trim(s)` is the middle of `s`: what is left once a whitespace-only
    prefix and a whitespace-only suffix are cut off.
   */
  lemma TrimSlice(s: string) returns (i: nat, j: nat)
    ensures i <= j <= |s|
    ensures Trim(s) == s[i..j]
    ensures AllSpace(s[..i]) && AllSpace(s[j..])
  {
    var t := TrimStart(s);
    TrimStartSuffix(s);
    TrimEndPrefix(t);
    i := |s| - |t|;
    j := i + |TrimEnd(t)|;
    assert s[i..j] == t[..|TrimEnd(t)|];
    assert s[j..] == t[|TrimEnd(t)|..];
  }

  /** A string that neither begins nor ends in whitespace is its own trim. */
  lemma TrimOfTrimmed(s: string)
    requires s == [] || (!IsSpace(s[0]) && !IsSpace(s[|s| - 1]))
    ensures Trim(s) == s
  {
  }

  /** Trimming twice is trimming once. */
  lemma TrimIdempotent(s: string)
    ensures Trim(Trim(s)) == Trim(s)
  {
  }

  /** `s.startsWith(p)`: `s` is `p` followed by the rest of `s`. */
  predicate StartsWith(s: string, p: string)
    ensures StartsWith(s, p) <==> |p| <= |s| && s == p + s[|p|..]
  {
    |p| <= |s| && s[..|p|] == p
  }

  /** `c.toLowerCase()` on a single character, folding the ASCII letters only. */
  function LowerChar(c: char): (r: char)
    ensures 'A' <= c <= 'Z' ==> 'a' <= r <= 'z' && r as int == c as int + 32
    ensures !('A' <= c <= 'Z') ==> r == c
  {
    if 'A' <= c <= 'Z' then (c as int + 32) as char else c
  }

  /** `s.toLowerCase()`: same length, no upper-case ASCII letter left, and otherwise the same characters. */
  function ToLower(s: string): (r: string)
    ensures |r| == |s|
    ensures forall i :: 0 <= i < |s| ==> r[i] == LowerChar(s[i])
    ensures forall i :: 0 <= i < |r| ==> !('A' <= r[i] <= 'Z')
  {
    if s == [] then [] else [LowerChar(s[0])] + ToLower(s[1..])
  }

  /** Lower-casing works character by character, so it distributes over concatenation. */
  lemma ToLowerAppend(a: string, b: string)
    ensures ToLower(a + b) == ToLower(a) + ToLower(b)
  {
    var l, r := ToLower(a + b), ToLower(a) + ToLower(b);
    forall i | 0 <= i < |l|
      ensures l[i] == r[i]
    {
      if i < |a| {
        assert (a + b)[i] == a[i];
      } else {
        assert (a + b)[i] == b[i - |a|];
      }
    }
  }

  /** Lower-casing three words joined by spaces lower-cases each word and keeps the spaces. */
  lemma ToLowerSpaced(a: string, b: string, c: string)
    ensures ToLower(a + " " + b + " " + c) == ToLower(a) + " " + ToLower(b) + " " + ToLower(c)
  {
    ToLowerAppend(a + " " + b + " ", c);
    ToLowerAppend(a + " " + b, " ");
    ToLowerAppend(a + " ", b);
    ToLowerAppend(a, " ");
    assert ToLower(" ") == " ";
  }

  /** `h.includes(n)`: `n` occurs in `h` at some offset; the empty needle occurs in every haystack. */
  predicate Contains(h: string, n: string)
    ensures Contains(h, n) ==> |n| <= |h|
    ensures n == [] ==> Contains(h, n)
    decreases |h|
  {
    StartsWith(h, n) || (h != [] && Contains(h[1..], n))
  }

  /** An occurrence of `n` at any offset of `h` makes `Contains` hold. */
  lemma {:induction false} ContainsAt(h: string, n: string, k: nat)
    requires k + |n| <= |h| && h[k..k + |n|] == n
    ensures Contains(h, n)
    decreases k
  {
    if k == 0 {
      assert h[..|n|] == n;
    } else {
      assert h[1..][k - 1..k - 1 + |n|] == h[k..k + |n|];
      ContainsAt(h[1..], n, k - 1);
    }
  }

  /** Conversely, whenever `Contains` holds there is an offset at which `n` occurs in `h`. */
  lemma {:induction false} ContainsOffset(h: string, n: string) returns (k: nat)
    requires Contains(h, n)
    ensures k + |n| <= |h| && h[k..k + |n|] == n
    decreases |h|
  {
    if StartsWith(h, n) {
      k := 0;
    } else {
      var j := ContainsOffset(h[1..], n);
      k := j + 1;
      assert h[k..k + |n|] == h[1..][j..j + |n|];
    }
  }
}
