/**
 * Byte strings as Python's `bytes`, together with the library operations the
 * broker applies to them: `in` (substring search), `split`, `strip` and
 * `int(...)`. `Join` and `FormatInt` (`d.join(parts)`, `str(n).encode()`) are
 * not called by the broker; they are the reference inverses that the round-trip
 * lemmas pin `Split` and `ParseInt` down with.
 */
module ByteStrings {
  import opened Options

  newtype byte = x: int | 0 <= x < 256

  type Bytes = seq<byte>

  /** The bytes of an ASCII literal, as `str.encode()` produces them. */
  function Ascii(s: string): (b: Bytes)
    requires forall i :: 0 <= i < |s| ==> s[i] as int < 128
    ensures |b| == |s|
  {
    seq(|s|, i requires 0 <= i < |s| => s[i] as int as byte)
  }

  /** `b''.join(chunks)`: the chunks one after another. */
  function Concat(chunks: seq<Bytes>): Bytes
  {
    if chunks == [] then [] else Concat(chunks[..|chunks| - 1]) + chunks[|chunks| - 1]
  }

  lemma ConcatSnoc(chunks: seq<Bytes>, c: Bytes)
    ensures Concat(chunks + [c]) == Concat(chunks) + c
  {
    assert (chunks + [c])[..|chunks|] == chunks;
  }

  // ---------------------------------------------------------------------------
  // Substring search: `pat in s`, `s.find(pat)`
  // ---------------------------------------------------------------------------

  /** `pat` occurs in `s` starting at position `i`. */
  predicate MatchAt(s: Bytes, pat: Bytes, i: int)
  {
    0 <= i && i + |pat| <= |s| && s[i..i + |pat|] == pat
  }

  /** The first occurrence of `pat` in `s` at or after `from`. */
  function IndexFrom(s: Bytes, pat: Bytes, from: nat): (r: Option<nat>)
    requires from <= |s|
    ensures r.Some? ==> from <= r.value && MatchAt(s, pat, r.value)
    ensures r.Some? ==> forall i :: from <= i < r.value ==> !MatchAt(s, pat, i)
    ensures r.None? ==> forall i :: from <= i ==> !MatchAt(s, pat, i)
    decreases |s| - from
  {
    if from + |pat| > |s| then None
    else if s[from..from + |pat|] == pat then Some(from)
    else IndexFrom(s, pat, from + 1)
  }

  /** `s.find(pat)`, with `None` for -1. */
  function IndexOf(s: Bytes, pat: Bytes): Option<nat>
  {
    IndexFrom(s, pat, 0)
  }

  /** `pat in s`. */
  predicate Contains(s: Bytes, pat: Bytes)
  {
    IndexOf(s, pat).Some?
  }

  /** The first match is the one position that matches with no match before it. */
  lemma IndexOfIsFirstMatch(s: Bytes, pat: Bytes, j: nat)
    requires MatchAt(s, pat, j)
    requires forall i :: 0 <= i < j ==> !MatchAt(s, pat, i)
    ensures IndexOf(s, pat) == Some(j)
  {
  }

  /** Bytes appended after a match do not move the first match. */
  lemma IndexOfExtend(a: Bytes, b: Bytes, pat: Bytes)
    requires Contains(a, pat)
    ensures IndexOf(a + b, pat) == IndexOf(a, pat)
  {
    var j := IndexOf(a, pat).value;
    assert (a + b)[j..j + |pat|] == a[j..j + |pat|];
    forall i | 0 <= i < j
      ensures !MatchAt(a + b, pat, i)
    {
      assert !MatchAt(a, pat, i);
      assert i + |pat| <= |a|;
      assert (a + b)[i..i + |pat|] == a[i..i + |pat|];
    }
    IndexOfIsFirstMatch(a + b, pat, j);
  }

  /** A match in the second half of a concatenation is a match in that half. */
  lemma MatchAtShift(a: Bytes, b: Bytes, pat: Bytes, i: nat)
    ensures MatchAt(a + b, pat, |a| + i) <==> MatchAt(b, pat, i)
  {
    if i + |pat| <= |b| {
      assert (a + b)[|a| + i..|a| + i + |pat|] == b[i..i + |pat|];
    }
  }

  /** No byte of `s` before `j` starts `pat`, and `pat` occurs at `j`: that is the first match. */
  lemma FirstByteDecides(s: Bytes, pat: Bytes, j: nat)
    requires |pat| > 0 && MatchAt(s, pat, j)
    requires forall i :: 0 <= i < j ==> s[i] != pat[0]
    ensures IndexOf(s, pat) == Some(j)
  {
    forall i | 0 <= i < j
      ensures !MatchAt(s, pat, i)
    {
      if i + |pat| <= |s| {
        assert s[i..i + |pat|][0] == s[i] != pat[0];
      }
    }
    IndexOfIsFirstMatch(s, pat, j);
  }

  /** A string without the first byte of `pat` does not contain `pat`. */
  lemma FirstByteAbsent(s: Bytes, pat: Bytes)
    requires |pat| > 0
    requires forall i :: 0 <= i < |s| ==> s[i] != pat[0]
    ensures !Contains(s, pat)
  {
    forall i | 0 <= i
      ensures !MatchAt(s, pat, i)
    {
      if i + |pat| <= |s| {
        assert s[i..i + |pat|][0] == s[i] != pat[0];
      }
    }
  }

  /** A prefix that ends before the first match holds no match. */
  lemma NoMatchInPrefix(s: Bytes, pat: Bytes, j: nat)
    requires |pat| > 0 && j <= |s|
    requires forall i :: 0 <= i < j ==> !MatchAt(s, pat, i)
    ensures !Contains(s[..j], pat)
  {
    if Contains(s[..j], pat) {
      var k := IndexOf(s[..j], pat).value;
      assert s[..j][k..k + |pat|] == s[k..k + |pat|];
      assert MatchAt(s, pat, k);
      assert false;
    }
  }

  // ---------------------------------------------------------------------------
  // `s.split(d)` and `d.join(parts)`
  // ---------------------------------------------------------------------------

  /** `s.split(d)` for a non-empty separator: the pieces between successive matches, left to right. */
  function Split(s: Bytes, d: Bytes): (parts: seq<Bytes>)
    requires |d| > 0
    ensures |parts| >= 1
    ensures |parts| == 1 <==> !Contains(s, d)
    ensures forall i :: 0 <= i < |parts| ==> !Contains(parts[i], d)
    decreases |s|
  {
    match IndexOf(s, d)
    case None => [s]
    case Some(j) =>
      NoMatchInPrefix(s, d, j);
      [s[..j]] + Split(s[j + |d|..], d)
  }

  /** Every part of a split is a slice of the input; `k` is where it starts. */
  lemma SplitPartAt(s: Bytes, d: Bytes, i: nat) returns (k: nat)
    requires |d| > 0 && i < |Split(s, d)|
    ensures k + |Split(s, d)[i]| <= |s| && s[k..k + |Split(s, d)[i]|] == Split(s, d)[i]
  {
    JoinSplit(s, d);
    k := JoinPartAt(Split(s, d), d, i);
  }

  /** Whatever a part of a split contains, the input contains too. */
  lemma PartContains(s: Bytes, d: Bytes, i: nat, pat: Bytes)
    requires |d| > 0 && i < |Split(s, d)| && Contains(Split(s, d)[i], pat)
    ensures Contains(s, pat)
  {
    var k := SplitPartAt(s, d, i);
    ContainsWithin(s, k, Split(s, d)[i], pat);
  }

  /** Every part of a join is a slice of it. */
  lemma {:induction false} JoinPartAt(parts: seq<Bytes>, d: Bytes, i: nat) returns (k: nat)
    requires i < |parts|
    ensures k + |parts[i]| <= |Join(parts, d)| && Join(parts, d)[k..k + |parts[i]|] == parts[i]
    decreases |parts|
  {
    var all := Join(parts, d);
    if |parts| == 1 {
      k := 0;
      assert all[..|parts[0]|] == all;
    } else {
      var tail := Join(parts[1..], d);
      assert all == parts[0] + d + tail;
      if i == 0 {
        k := 0;
        assert all[..|parts[0]|] == parts[0];
      } else {
        var k' := JoinPartAt(parts[1..], d, i - 1);
        k := |parts[0]| + |d| + k';
        assert all[k..k + |parts[i]|] == tail[k'..k' + |parts[i]|];
      }
    }
  }

  /** A string that contains `pat` and sits inside `s` at `k` makes `s` contain `pat` too. */
  lemma ContainsWithin(s: Bytes, k: nat, t: Bytes, pat: Bytes)
    requires k + |t| <= |s| && s[k..k + |t|] == t && Contains(t, pat)
    ensures Contains(s, pat)
  {
    var m := IndexOf(t, pat).value;
    assert MatchAt(t, pat, m);
    assert s[k + m..k + m + |pat|] == pat by {
      forall x | 0 <= x < |pat|
        ensures s[k + m + x] == pat[x]
      {
        assert s[k + m + x] == s[k..k + |t|][m + x] == t[m + x];
        assert t[m + x] == t[m..m + |pat|][x];
      }
    }
    assert MatchAt(s, pat, k + m);
  }

  /** `d.join(parts)`. */
  function Join(parts: seq<Bytes>, d: Bytes): Bytes
    requires |parts| >= 1
  {
    if |parts| == 1 then parts[0] else parts[0] + d + Join(parts[1..], d)
  }

  /** Joining the pieces of a split with the same separator gives back the input. */
  lemma {:induction false} JoinSplit(s: Bytes, d: Bytes)
    requires |d| > 0
    ensures Join(Split(s, d), d) == s
    decreases |s|
  {
    if IndexOf(s, d).Some? {
      var j := IndexOf(s, d).value;
      var rest := s[j + |d|..];
      JoinSplit(rest, d);
      SplitAround(s, j, d);
    }
  }

  lemma SplitAround(s: Bytes, j: nat, d: Bytes)
    requires MatchAt(s, d, j)
    ensures s == s[..j] + d + s[j + |d|..]
  {
    assert s == s[..j] + s[j..j + |d|] + s[j + |d|..];
  }

  // ---------------------------------------------------------------------------
  // `s.strip()`
  // ---------------------------------------------------------------------------

  /** ASCII whitespace as `bytes.strip()` sees it: space, tab, LF, VT, FF, CR. */
  predicate IsStripSpace(b: byte)
  {
    b == 32 || 9 <= b <= 13
  }

  predicate AllStripSpace(s: Bytes)
  {
    forall i :: 0 <= i < |s| ==> IsStripSpace(s[i])
  }

  function TrimStart(s: Bytes): (r: Bytes)
    ensures |r| <= |s| && r == s[|s| - |r|..]
    ensures r == [] || !IsStripSpace(r[0])
  {
    if s != [] && IsStripSpace(s[0]) then TrimStart(s[1..]) else s
  }

  function TrimEnd(s: Bytes): (r: Bytes)
    ensures |r| <= |s| && r == s[..|r|]
    ensures r == [] || !IsStripSpace(r[|r| - 1])
  {
    if s != [] && IsStripSpace(s[|s| - 1]) then TrimEnd(s[..|s| - 1]) else s
  }

  /** `s.strip()`: drop leading and trailing ASCII whitespace. */
  function Strip(s: Bytes): (r: Bytes)
    ensures r == [] || (!IsStripSpace(r[0]) && !IsStripSpace(r[|r| - 1]))
  {
    TrimEnd(TrimStart(s))
  }

  lemma {:induction false} TrimStartPadded(pad: Bytes, t: Bytes)
    requires AllStripSpace(pad)
    requires t == [] || !IsStripSpace(t[0])
    ensures TrimStart(pad + t) == t
    decreases |pad|
  {
    if pad != [] {
      assert (pad + t)[1..] == pad[1..] + t;
      TrimStartPadded(pad[1..], t);
    }
  }

  lemma {:induction false} TrimEndPadded(t: Bytes, pad: Bytes)
    requires AllStripSpace(pad)
    requires t == [] || !IsStripSpace(t[|t| - 1])
    ensures TrimEnd(t + pad) == t
    decreases |pad|
  {
    if pad != [] {
      assert (t + pad)[..|t + pad| - 1] == t + pad[..|pad| - 1];
      TrimEndPadded(t, pad[..|pad| - 1]);
    } else {
      assert t + pad == t;
    }
  }

  /** Whitespace around a word is exactly what `strip` removes. */
  lemma StripPadded(left: Bytes, t: Bytes, right: Bytes)
    requires AllStripSpace(left) && AllStripSpace(right)
    requires t == [] || (!IsStripSpace(t[0]) && !IsStripSpace(t[|t| - 1]))
    ensures Strip(left + t + right) == t
  {
    assert left + t + right == left + (t + right);
    if t == [] {
      assert left + t + right == (left + right) + [];
      TrimStartPadded(left + right, []);
    } else {
      TrimStartPadded(left, t + right);
      TrimEndPadded(t, right);
    }
  }

  // ---------------------------------------------------------------------------
  // `int(s)` on stripped ASCII decimal text, and its inverse `str(n).encode()`
  // ---------------------------------------------------------------------------

  predicate IsDigit(b: byte)
  {
    48 <= b <= 57
  }

  predicate AllDigits(s: Bytes)
  {
    forall i :: 0 <= i < |s| ==> IsDigit(s[i])
  }

  /** The value of a string of decimal digits, most significant first. */
  function DigitsValue(s: Bytes): nat
    requires AllDigits(s)
  {
    if s == [] then 0 else DigitsValue(s[..|s| - 1]) * 10 + (s[|s| - 1] as int - 48)
  }

  /** An optional `+` or `-` followed by at least one decimal digit. */
  predicate IsIntegerLiteral(s: Bytes)
  {
    || (|s| > 0 && AllDigits(s))
    || (|s| > 1 && (s[0] == 43 || s[0] == 45) && AllDigits(s[1..]))
  }

  /** `int(s)`; `None` stands for the `ValueError` it raises. */
  function ParseInt(s: Bytes): (r: Option<int>)
    ensures r.Some? <==> IsIntegerLiteral(s)
  {
    if |s| > 0 && (s[0] == 43 || s[0] == 45) then
      var digits := s[1..];
      if |digits| > 0 && AllDigits(digits) then
        var magnitude: int := DigitsValue(digits);
        Some(if s[0] == 45 then -magnitude else magnitude)
      else None
    else if |s| > 0 && AllDigits(s) then Some(DigitsValue(s))
    else None
  }

  /** The decimal digits of `n`, with no leading zero. */
  function Decimal(n: nat): (s: Bytes)
    ensures |s| > 0 && AllDigits(s)
    ensures |s| > 1 ==> s[0] != 48
  {
    if n < 10 then [(48 + n) as byte] else Decimal(n / 10) + [(48 + n % 10) as byte]
  }

  /** `str(n).encode()`. */
  function FormatInt(n: int): Bytes
  {
    if n < 0 then [45] + Decimal(-n) else Decimal(n)
  }

  lemma {:induction false} DecimalValue(n: nat)
    ensures DigitsValue(Decimal(n)) == n
  {
    if n >= 10 {
      var s := Decimal(n);
      assert s[..|s| - 1] == Decimal(n / 10);
      DecimalValue(n / 10);
    }
  }

  /** `int` reads back what `str` writes. */
  lemma ParseFormat(n: int)
    ensures ParseInt(FormatInt(n)) == Some(n)
  {
    if n < 0 {
      ParseDecimal(-n);
      var s := FormatInt(n);
      assert s[1..] == Decimal(-n);
    } else {
      ParseDecimal(n);
    }
  }

  lemma ParseDecimal(n: nat)
    ensures ParseInt(Decimal(n)) == Some(n)
  {
    DecimalValue(n);
    var s := Decimal(n);
    assert IsDigit(s[0]);
  }

  /** A single digit is its own `strip()` and reads back as its value. */
  lemma ParseDigit(d: byte)
    requires IsDigit(d)
    ensures Strip([d]) == [d] && ParseInt([d]) == Some(d as int - 48)
  {
    DigitValue(d);
    StripWord([d]);
  }

  lemma DigitValue(d: byte)
    requires IsDigit(d)
    ensures DigitsValue([d]) == d as int - 48
  {
    var s: Bytes := [d];
    assert s[..0] == [];
  }

  lemma StripWord(t: Bytes)
    requires t == [] || (!IsStripSpace(t[0]) && !IsStripSpace(t[|t| - 1]))
    ensures Strip(t) == t
  {
    assert t == [] + t + [];
    StripPadded([], t, []);
  }
}
