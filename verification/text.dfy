/**
 * The JavaScript string primitives the search widget relies on: `toLowerCase`,
 * `trim`, `length` and `includes`.
 *
 * Strings are sequences of Unicode scalar values. JavaScript measures a string in
 * UTF-16 code units, which `JsLength` models; `toLowerCase` is modelled on ASCII
 * only, leaving every other character unchanged.
 */
module JsText {

  /** `toLowerCase` on one character: ASCII capitals map to their small letter. */
  function LowerChar(c: char): char {
    if 'A' <= c <= 'Z' then (c as int + 32) as char else c
  }

  /** `String.prototype.toLowerCase`, character by character. */
  function Lower(s: string): string {
    seq(|s|, i requires 0 <= i < |s| => LowerChar(s[i]))
  }

  predicate IsAsciiUpper(c: char) {
    'A' <= c <= 'Z'
  }

  /** A lower-cased string holds no ASCII capital, and lower-casing it again changes nothing. */
  lemma LowerIsNormal(s: string)
    ensures forall i :: 0 <= i < |s| ==> !IsAsciiUpper(Lower(s)[i])
    ensures Lower(Lower(s)) == Lower(s)
  {
  }

  /** Any slice of a lower-cased string is its own lower case. */
  lemma LowerOfLoweredSlice(s: string, i: nat, j: nat)
    requires i <= j <= |s|
    ensures Lower(Lower(s)[i..j]) == Lower(s)[i..j]
  {
    var part := Lower(s)[i..j];
    forall k | 0 <= k < |part|
      ensures Lower(part)[k] == part[k]
    {
      assert part[k] == LowerChar(s[i + k]);
    }
  }

  /** Lower-casing commutes with taking a slice. */
  lemma LowerSlice(s: string, i: nat, j: nat)
    requires i <= j <= |s|
    ensures Lower(s)[i..j] == Lower(s[i..j])
  {
  }

  /**
   * The characters `trim` removes: ECMAScript WhiteSpace (tab, vertical tab, form
   * feed, the space separators of category Zs, no-break space, byte order mark)
   * and LineTerminator (line feed, carriage return, line and paragraph separators).
   */
  predicate IsJsSpace(c: char) {
    var n := c as int;
    || n == 0x09 || n == 0x0A || n == 0x0B || n == 0x0C || n == 0x0D
    || n == 0x20 || n == 0xA0 || n == 0x1680
    || (0x2000 <= n <= 0x200A)
    || n == 0x2028 || n == 0x2029 || n == 0x202F || n == 0x205F
    || n == 0x3000 || n == 0xFEFF
  }

  /** Drops the leading white space: the result is the longest suffix that starts with a non-space. */
  function TrimStart(s: string): (r: string)
    ensures |r| <= |s| && r == s[|s| - |r|..]
    ensures forall k :: 0 <= k < |s| - |r| ==> IsJsSpace(s[k])
    ensures |r| > 0 ==> !IsJsSpace(r[0])
    decreases |s|
  {
    if |s| > 0 && IsJsSpace(s[0]) then TrimStart(s[1..]) else s
  }

  /** Drops the trailing white space: the result is the longest prefix that ends with a non-space. */
  function TrimEnd(s: string): (r: string)
    ensures |r| <= |s| && r == s[..|r|]
    ensures forall k :: |r| <= k < |s| ==> IsJsSpace(s[k])
    ensures |r| > 0 ==> !IsJsSpace(r[|r| - 1])
    decreases |s|
  {
    if |s| > 0 && IsJsSpace(s[|s| - 1]) then TrimEnd(s[..|s| - 1]) else s
  }

  /** `r` is the slice of `s` starting at `i`, and only white space lies outside it. */
  ghost predicate TrimmedAt(s: string, r: string, i: int) {
    && 0 <= i <= |s| - |r|
    && r == s[i..i + |r|]
    && (forall k :: 0 <= k < i ==> IsJsSpace(s[k]))
    && (forall k :: i + |r| <= k < |s| ==> IsJsSpace(s[k]))
  }

  /** `r` is `s` with its leading and trailing white space, and nothing else, removed. */
  ghost predicate IsTrimOf(s: string, r: string) {
    && (exists i :: TrimmedAt(s, r, i))
    && (|r| > 0 ==> !IsJsSpace(r[0]) && !IsJsSpace(r[|r| - 1]))
  }

  /** `String.prototype.trim`: the leading, then the trailing white space removed. */
  function Trim(s: string): string {
    TrimEnd(TrimStart(s))
  }

  /** `Trim` removes the white space at both ends, and nothing else. */
  lemma TrimIsTrimOf(s: string)
    ensures IsTrimOf(s, Trim(s))
  {
    var t := TrimStart(s);
    var r := TrimEnd(t);
    var i := |s| - |t|;
    assert t == s[i..];
    assert r == t[..|r|];
    assert r == s[i..i + |r|];
    forall k | i + |r| <= k < |s|
      ensures IsJsSpace(s[k])
    {
      assert s[k] == t[k - i];
    }
    assert TrimmedAt(s, r, i);
    if |r| > 0 {
      assert r[0] == t[0];
    }
  }

  /** The trimmed slice cannot start before another trimmed slice's first non-space character, nor end after its last. */
  lemma TrimBounds(s: string, r1: string, i1: int, r2: string, i2: int)
    requires TrimmedAt(s, r1, i1) && TrimmedAt(s, r2, i2)
    requires |r1| > 0 && !IsJsSpace(r1[0]) && !IsJsSpace(r1[|r1| - 1])
    ensures |r2| > 0 && i2 <= i1 && i1 + |r1| <= i2 + |r2|
  {
    assert s[i1] == r1[0] && s[i1 + |r1| - 1] == r1[|r1| - 1];
  }

  /** `IsTrimOf` pins the trimmed string down: at most one string is the trim of `s`. */
  lemma TrimIsUnique(s: string, r1: string, r2: string)
    requires IsTrimOf(s, r1) && IsTrimOf(s, r2)
    ensures r1 == r2
  {
    var i1 :| TrimmedAt(s, r1, i1);
    var i2 :| TrimmedAt(s, r2, i2);
    if |r1| > 0 {
      TrimBounds(s, r1, i1, r2, i2);
      TrimBounds(s, r2, i2, r1, i1);
    } else if |r2| > 0 {
      TrimBounds(s, r2, i2, r1, i1);
    }
  }

  /** The `length` of a JavaScript string: characters outside the Basic Multilingual Plane take two UTF-16 code units. */
  function JsLength(s: string): (n: nat)
    ensures |s| <= n <= 2 * |s|
  {
    if s == [] then 0
    else (if s[0] as int >= 0x1_0000 then 2 else 1) + JsLength(s[1..])
  }

  /** Code units add up over concatenation: the `length` of `a + b` is that of `a` plus that of `b`. */
  lemma {:induction false} JsLengthAppend(a: string, b: string)
    ensures JsLength(a + b) == JsLength(a) + JsLength(b)
    decreases |a|
  {
    if a != [] {
      assert (a + b)[0] == a[0] && (a + b)[1..] == a[1..] + b;
      JsLengthAppend(a[1..], b);
    } else {
      assert a + b == b;
    }
  }

  /** The `length` counts characters exactly when every character lies in the Basic Multilingual Plane. */
  lemma {:induction false} JsLengthIsSizeIffBmp(s: string)
    ensures JsLength(s) == |s| <==> forall i :: 0 <= i < |s| ==> s[i] as int < 0x1_0000
    decreases |s|
  {
    if s != [] {
      JsLengthIsSizeIffBmp(s[1..]);
      assert forall i :: 1 <= i < |s| ==> s[i] == s[1..][i - 1];
    }
  }

  /** `needle` occurs in `hay` starting at position `p`. */
  predicate OccursAt(hay: string, needle: string, p: int) {
    0 <= p && p + |needle| <= |hay| && hay[p..p + |needle|] == needle
  }

  /** `String.prototype.includes`: a left-to-right scan for `needle`. */
  function Includes(hay: string, needle: string): bool
    decreases |hay|
  {
    if |needle| > |hay| then false
    else if hay[..|needle|] == needle then true
    else Includes(hay[1..], needle)
  }

  /** The scan answers yes exactly when `needle` occurs somewhere in `hay`. */
  lemma {:induction false} IncludesIsOccurrence(hay: string, needle: string)
    ensures Includes(hay, needle) <==> exists p :: OccursAt(hay, needle, p)
    decreases |hay|
  {
    if |needle| > |hay| {
    } else if hay[..|needle|] == needle {
      assert OccursAt(hay, needle, 0);
    } else {
      IncludesIsOccurrence(hay[1..], needle);
      if Includes(hay[1..], needle) {
        var p :| OccursAt(hay[1..], needle, p);
        assert hay[1..][p..p + |needle|] == hay[p + 1..p + 1 + |needle|];
        assert OccursAt(hay, needle, p + 1);
      } else {
        forall p | OccursAt(hay, needle, p)
          ensures false
        {
          assert p != 0;
          assert hay[1..][p - 1..p - 1 + |needle|] == hay[p..p + |needle|];
          assert OccursAt(hay[1..], needle, p - 1);
        }
      }
    }
  }
}
