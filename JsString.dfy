/** The few JavaScript string operations the math pipeline relies on,
    stated over `seq<char>`. A char is a Unicode scalar value; every index
    the pipeline cuts at sits next to an ASCII delimiter, so character and
    code-unit positions give the same pieces, and `length` where it is
    compared with a limit is `Utf16Length`. */
module JsString {

  /** `T | null`, and the result of a search that may fail. */
  datatype Option<T> = None | Some(value: T)

  /** `s.includes(t)`: `t` occurs in `s` at some position; the empty string occurs everywhere. */
  predicate Contains(s: string, t: string) {
    exists i :: 0 <= i <= |s| - |t| && OccursAt(s, t, i)
  }

  /** `t` occurs in `s` starting at index `i`. */
  predicate OccursAt(s: string, t: string, i: int) {
    0 <= i <= |s| - |t| && s[i..i + |t|] == t
  }

  /** `s.startsWith(t)` */
  predicate StartsWith(s: string, t: string) {
    |t| <= |s| && s[..|t|] == t
  }

  /** `s.endsWith(t)` */
  predicate EndsWith(s: string, t: string) {
    |t| <= |s| && s[|s| - |t|..] == t
  }

  /** `(s.match(/c/g)?.length || 0)`: the number of occurrences of `c` in `s`. */
  function CountChar(s: string, c: char): (n: nat)
    ensures n <= |s|
    ensures n == 0 <==> c !in s
  {
    if s == [] then 0 else (if s[0] == c then 1 else 0) + CountChar(s[1..], c)
  }

  /** Clamps a `substring` argument into `[0, len]`. */
  function Clamp(x: int, len: nat): nat {
    if x < 0 then 0 else if x > len then len else x
  }

  /** `s.substring(start, end)`: both arguments are clamped into `[0, |s|]`
      and swapped when `start > end`. */
  function Substring(s: string, start: int, end: int): (r: string)
    ensures 0 <= start <= end <= |s| ==> r == s[start..end]
    ensures 0 <= end <= start <= |s| ==> r == s[end..start]
  {
    var a, b := Clamp(start, |s|), Clamp(end, |s|);
    if a <= b then s[a..b] else s[b..a]
  }

  /** `n` copies of `c`. */
  function Repeat(c: char, n: nat): (r: string)
    ensures |r| == n
    ensures forall k :: 0 <= k < n ==> r[k] == c
  {
    if n == 0 then [] else [c] + Repeat(c, n - 1)
  }

  /** Every character of a contained string is a character of the container. */
  lemma {:induction false} ContainsChar(s: string, t: string, k: nat)
    requires Contains(s, t) && k < |t|
    ensures t[k] in s
  {
    var i :| 0 <= i <= |s| - |t| && OccursAt(s, t, i);
    assert s[i + k] == s[i..i + |t|][k];
  }

  /** A string missing one character of `t` does not contain `t`. */
  lemma {:induction false} MissingChar(s: string, t: string, k: nat)
    requires k < |t| && t[k] !in s
    ensures !Contains(s, t)
  {
    if Contains(s, t) {
      ContainsChar(s, t, k);
    }
  }

  lemma {:induction false} CountRepeat(c: char, n: nat, x: char)
    ensures CountChar(Repeat(c, n), x) == if c == x then n else 0
  {
    if n > 0 {
      assert Repeat(c, n)[1..] == Repeat(c, n - 1);
      CountRepeat(c, n - 1, x);
    }
  }

  /** `s.length`: the number of UTF-16 code units, one for a character of
      the Basic Multilingual Plane and two (a surrogate pair) for any other. */
  function Utf16Length(s: string): (n: nat)
    ensures |s| <= n <= 2 * |s|
  {
    if s == [] then 0 else (if s[0] as int < 0x1_0000 then 1 else 2) + Utf16Length(s[1..])
  }

  /** A run of one character has one code unit per character inside the
      Basic Multilingual Plane and two outside it. */
  lemma {:induction false} Utf16Repeat(c: char, n: nat)
    ensures Utf16Length(Repeat(c, n)) == if c as int < 0x1_0000 then n else 2 * n
  {
    if n > 0 {
      assert Repeat(c, n)[1..] == Repeat(c, n - 1);
      Utf16Repeat(c, n - 1);
    }
  }

  /** Empty strings around a concatenation of three change nothing. */
  lemma {:induction false} NothingAround(a: string, b: string, c: string)
    ensures [] + a + b + c + [] == a + b + c
    ensures [] + ((a + b + c) + []) == a + b + c
  {
  }
}
