/** String helpers with Python's meaning: `startswith`, `endswith`, `rfind`,
    ASCII `lower`, code-point ordering and decimal formatting. */
module Text {

  predicate StartsWith(s: string, prefix: string) {
    |prefix| <= |s| && s[..|prefix|] == prefix
  }

  predicate EndsWith(s: string, suffix: string) {
    |suffix| <= |s| && s[|s| - |suffix|..] == suffix
  }

  lemma ConcatAssoc<T>(a: seq<T>, b: seq<T>, c: seq<T>)
    ensures (a + b) + c == a + (b + c)
  {
  }

  /** `idx` picks the elements of `r` out of `s`, at increasing positions. */
  ghost predicate Picks<T>(r: seq<T>, s: seq<T>, idx: seq<nat>) {
    && |idx| == |r|
    && (forall i :: 0 <= i < |idx| ==> idx[i] < |s| && s[idx[i]] == r[i])
    && (forall i, j :: 0 <= i < j < |idx| ==> idx[i] < idx[j])
  }

  /** `r` is `s` with some elements left out, the rest in their order. */
  ghost predicate SubsequenceOf<T>(r: seq<T>, s: seq<T>) {
    exists idx :: Picks(r, s, idx)
  }

  ghost function Shift(idx: seq<nat>): (r: seq<nat>)
    ensures |r| == |idx| && forall i :: 0 <= i < |idx| ==> r[i] == idx[i] + 1
  {
    seq(|idx|, i requires 0 <= i < |idx| => idx[i] + 1)
  }

  /** A filter step: keeping or dropping the head of `s` in front of a
      subsequence of its tail gives a subsequence of `s`. */
  lemma SubsequenceCons<T>(s: seq<T>, rest: seq<T>, keep: bool)
    requires |s| > 0 && SubsequenceOf(rest, s[1..])
    ensures SubsequenceOf(if keep then [s[0]] + rest else rest, s)
  {
    var idx :| Picks(rest, s[1..], idx);
    var shifted := Shift(idx);
    assert Picks(rest, s, shifted) by {
      forall i | 0 <= i < |shifted| ensures shifted[i] < |s| && s[shifted[i]] == rest[i] {
        assert s[1..][idx[i]] == rest[i];
      }
    }
    if keep {
      var picks := [0] + shifted;
      forall i | 0 < i < |picks| ensures picks[i] < |s| && s[picks[i]] == ([s[0]] + rest)[i] {
        assert picks[i] == shifted[i - 1];
      }
      assert Picks([s[0]] + rest, s, picks);
    }
  }

  lemma SubsequenceEmpty<T>(s: seq<T>)
    ensures SubsequenceOf([], s)
  {
    assert Picks([], s, []);
  }

  /** A subsequence of a subsequence of `s` is a subsequence of `s`. */
  lemma SubsequenceTrans<T>(a: seq<T>, b: seq<T>, c: seq<T>)
    requires SubsequenceOf(a, b) && SubsequenceOf(b, c)
    ensures SubsequenceOf(a, c)
  {
    var ia :| Picks(a, b, ia);
    var ib :| Picks(b, c, ib);
    var ic := seq(|ia|, i requires 0 <= i < |ia| => ib[ia[i]]);
    assert Picks(a, c, ic);
  }

  /** `s.rfind(c)`: the index of the last occurrence of `c`, or -1. */
  function LastIndexOf(s: string, c: char): (r: int)
    ensures -1 <= r < |s|
    ensures r == -1 ==> forall k :: 0 <= k < |s| ==> s[k] != c
    ensures 0 <= r ==> s[r] == c && forall k :: r < k < |s| ==> s[k] != c
  {
    if |s| == 0 then -1
    else if s[|s| - 1] == c then |s| - 1
    else LastIndexOf(s[..|s| - 1], c)
  }

  /** `LastIndexOf` over a concatenation: an occurrence in the second part wins. */
  lemma {:induction false} LastIndexOfAppend(a: string, b: string, c: char)
    ensures LastIndexOf(a + b, c) ==
      (if LastIndexOf(b, c) >= 0 then |a| + LastIndexOf(b, c) else LastIndexOf(a, c))
  {
    var r, ra, rb := LastIndexOf(a + b, c), LastIndexOf(a, c), LastIndexOf(b, c);
    if rb >= 0 {
      assert (a + b)[|a| + rb] == c;
      forall k | |a| + rb < k < |a + b| ensures (a + b)[k] != c {
        assert (a + b)[k] == b[k - |a|];
      }
    } else {
      forall k | |a| <= k < |a + b| ensures (a + b)[k] != c {
        assert (a + b)[k] == b[k - |a|];
      }
      if ra >= 0 {
        assert (a + b)[ra] == c;
      } else {
        forall k | 0 <= k < |a| ensures (a + b)[k] != c {
          assert (a + b)[k] == a[k];
        }
      }
    }
    LastIndexUnique(a + b, c, r);
    if rb >= 0 {
      LastIndexUnique(a + b, c, |a| + rb);
    } else {
      LastIndexUnique(a + b, c, ra);
    }
  }

  /** The last occurrence is determined by the characters alone. */
  lemma LastIndexUnique(s: string, c: char, i: int)
    requires -1 <= i < |s|
    requires i == -1 ==> forall k :: 0 <= k < |s| ==> s[k] != c
    requires 0 <= i ==> s[i] == c && forall k :: i < k < |s| ==> s[k] != c
    ensures LastIndexOf(s, c) == i
  {
    assert 0 <= i ==> s[i] == c;
  }

  function LowerChar(c: char): char {
    if 'A' <= c <= 'Z' then (c as int + 32) as char else c
  }

  /** `str.lower()` restricted to ASCII letters: the same length, no
      upper-case ASCII letter left, every other character kept. */
  function Lower(s: string): (r: string)
    ensures |r| == |s|
    ensures forall k :: 0 <= k < |r| ==> !('A' <= r[k] <= 'Z')
    ensures forall k :: 0 <= k < |s| && !('A' <= s[k] <= 'Z') ==> r[k] == s[k]
  {
    seq(|s|, i requires 0 <= i < |s| => LowerChar(s[i]))
  }

  /** A string without upper-case ASCII letters is its own lower case. */
  lemma LowerKeeps(s: string)
    requires forall k :: 0 <= k < |s| ==> !('A' <= s[k] <= 'Z')
    ensures Lower(s) == s
  {
  }

  /** Python's `<=` on strings: lexicographic by code point, a prefix first. */
  predicate LexLe(a: string, b: string) {
    |a| == 0 || (|b| > 0 && (a[0] < b[0] || (a[0] == b[0] && LexLe(a[1..], b[1..]))))
  }

  lemma {:induction false} LexLeTotal(a: string, b: string)
    ensures LexLe(a, b) || LexLe(b, a)
  {
    if |a| > 0 && |b| > 0 && a[0] == b[0] {
      LexLeTotal(a[1..], b[1..]);
    }
  }

  lemma {:induction false} LexLeTrans(a: string, b: string, c: string)
    requires LexLe(a, b) && LexLe(b, c)
    ensures LexLe(a, c)
  {
    if |a| > 0 && a[0] == b[0] && b[0] == c[0] {
      LexLeTrans(a[1..], b[1..], c[1..]);
    }
  }

  function DigitChar(d: nat): char
    requires d < 10
  {
    ('0' as int + d) as char
  }

  /** The decimal rendering of a natural number, as `f"{n}"` prints it. */
  function Decimal(n: nat): (r: string)
    ensures |r| >= 1
    ensures forall k :: 0 <= k < |r| ==> '0' <= r[k] <= '9'
  {
    if n < 10 then [DigitChar(n)] else Decimal(n / 10) + [DigitChar(n % 10)]
  }

  /** `sep.join(parts)`. */
  function Join(parts: seq<string>, sep: string): string {
    if |parts| == 0 then ""
    else if |parts| == 1 then parts[0]
    else parts[0] + sep + Join(parts[1..], sep)
  }
}
