/** The Go library routines the tool relies on, stated over character
    sequences: strings.Index, strings.Trim with the cutset the driver uses,
    strconv.FormatInt in base 10 and strconv.ParseInt in base 10 for the
    platform's 64-bit int. */
module Text {

  datatype Option<T> = None | Some(value: T)

  // ---------------------------------------------------------------------
  // strings.Index

  /** The string m occurs in s starting at offset j. */
  predicate OccursAt(s: string, m: string, j: int) {
    0 <= j && j + |m| <= |s| && s[j..j + |m|] == m
  }

  /** The characters of m from position k on occur in s from offset j + k
      on; compared one character at a time. */
  predicate MatchesFrom(s: string, m: string, j: nat, k: nat)
    requires j + |m| <= |s| && k <= |m|
    decreases |m| - k
  {
    k == |m| || (s[j + k] == m[k] && MatchesFrom(s, m, j, k + 1))
  }

  lemma {:induction false} MatchesFromIsSlice(s: string, m: string, j: nat, k: nat)
    requires j + |m| <= |s| && k <= |m|
    ensures MatchesFrom(s, m, j, k) <==> s[j + k..j + |m|] == m[k..]
    decreases |m| - k
  {
    if k < |m| {
      MatchesFromIsSlice(s, m, j, k + 1);
      assert s[j + k..j + |m|] == [s[j + k]] + s[j + k + 1..j + |m|];
      assert m[k..] == [m[k]] + m[k + 1..];
    }
  }

  /** The first occurrence of m in s at offset j or later, or -1. */
  function IndexFrom(s: string, m: string, j: nat): (r: int)
    ensures r == -1 || (j <= r && r + |m| <= |s|)
    decreases |s| - j
  {
    if j + |m| > |s| then -1
    else if MatchesFrom(s, m, j, 0) then j
    else IndexFrom(s, m, j + 1)
  }

  lemma {:induction false} IndexFromIsFirst(s: string, m: string, j: nat)
    ensures IndexFrom(s, m, j) >= 0 ==> OccursAt(s, m, IndexFrom(s, m, j))
    ensures forall k :: j <= k && (IndexFrom(s, m, j) < 0 || k < IndexFrom(s, m, j)) ==> !OccursAt(s, m, k)
    decreases |s| - j
  {
    if j + |m| <= |s| {
      MatchesFromIsSlice(s, m, j, 0);
      assert m[0..] == m;
      if !MatchesFrom(s, m, j, 0) {
        IndexFromIsFirst(s, m, j + 1);
      }
    }
  }

  /** strings.Index: the offset of the first occurrence of m in s, or -1
      when m does not occur. The empty string occurs at offset 0. That the
      offset is the first occurrence is IndexIsFirst. */
  function Index(s: string, m: string): (r: int)
    ensures r == -1 || (0 <= r && r + |m| <= |s|)
    ensures m == [] ==> r == 0
  {
    IndexFrom(s, m, 0)
  }

  /** Index finds an occurrence and none lies before it; -1 means m occurs
      nowhere in s. */
  lemma IndexIsFirst(s: string, m: string)
    ensures Index(s, m) >= 0 ==> OccursAt(s, m, Index(s, m))
    ensures forall k :: 0 <= k && (Index(s, m) < 0 || k < Index(s, m)) ==> !OccursAt(s, m, k)
  {
    IndexFromIsFirst(s, m, 0);
  }

  // ---------------------------------------------------------------------
  // strings.Trim(s, "\r\n\t ")

  /** The cutset the driver trims from every input line. */
  const Cutset: string := "\r\n\t "

  function TrimLeft(s: string): string
    decreases |s|
  {
    if s != [] && s[0] in Cutset then TrimLeft(s[1..]) else s
  }

  function TrimRight(s: string): string
    decreases |s|
  {
    if s != [] && s[|s| - 1] in Cutset then TrimRight(s[..|s| - 1]) else s
  }

  /** strings.Trim: s without its leading and trailing cutset characters. */
  function Trim(s: string): string {
    TrimRight(TrimLeft(s))
  }

  lemma {:induction false} TrimLeftCuts(s: string) returns (i: nat)
    ensures i <= |s| && TrimLeft(s) == s[i..]
    ensures forall k :: 0 <= k < i ==> s[k] in Cutset
    ensures i < |s| ==> s[i] !in Cutset
    decreases |s|
  {
    if s != [] && s[0] in Cutset {
      var i' := TrimLeftCuts(s[1..]);
      i := i' + 1;
      assert s[1..][i'..] == s[i..];
      forall k | 0 <= k < i ensures s[k] in Cutset {
        if k > 0 { assert s[k] == s[1..][k - 1]; }
      }
    } else {
      i := 0;
    }
  }

  lemma {:induction false} TrimRightCuts(s: string) returns (j: nat)
    ensures j <= |s| && TrimRight(s) == s[..j]
    ensures forall k :: j <= k < |s| ==> s[k] in Cutset
    ensures 0 < j ==> s[j - 1] !in Cutset
    decreases |s|
  {
    if s != [] && s[|s| - 1] in Cutset {
      j := TrimRightCuts(s[..|s| - 1]);
      assert s[..|s| - 1][..j] == s[..j];
    } else {
      j := |s|;
    }
  }

  /** Trim keeps a contiguous part of the line, everything it removes is in
      the cutset, and what it keeps neither starts nor ends with a cutset
      character. */
  lemma TrimIsInfix(s: string) returns (i: nat, j: nat)
    ensures i <= j <= |s| && Trim(s) == s[i..j]
    ensures forall k :: 0 <= k < i || j <= k < |s| ==> s[k] in Cutset
    ensures i < j ==> s[i] !in Cutset && s[j - 1] !in Cutset
  {
    i := TrimLeftCuts(s);
    var t := s[i..];
    var j' := TrimRightCuts(t);
    j := i + j';
    assert t[..j'] == s[i..j];
    forall k | j <= k < |s| ensures s[k] in Cutset {
      assert s[k] == t[k - i];
    }
    if i < j {
      assert s[j - 1] == t[j' - 1];
    }
  }

  // ---------------------------------------------------------------------
  // strconv.FormatInt(n, 10) and strconv.ParseInt(s, 10, 0)

  const MinInt64: int := -0x8000_0000_0000_0000
  const MaxInt64: int := 0x7FFF_FFFF_FFFF_FFFF

  predicate IsDigit(c: char) {
    '0' <= c <= '9'
  }

  predicate AllDigits(s: string) {
    forall k :: 0 <= k < |s| ==> IsDigit(s[k])
  }

  function DigitChar(d: int): char
    requires 0 <= d < 10
  {
    ('0' as int + d) as char
  }

  function NatToStr(n: nat): string
    decreases n
  {
    if n < 10 then [DigitChar(n)] else NatToStr(n / 10) + [DigitChar(n % 10)]
  }

  /** strconv.FormatInt(n, 10): a minus sign for negative numbers, then the
      decimal digits without leading zeros. */
  function IntToStr(n: int): string {
    if n < 0 then "-" + NatToStr(-n) else NatToStr(n)
  }

  /** The value of a string of decimal digits, most significant first. */
  function DigitsValue(s: string): nat
    requires AllDigits(s)
    decreases |s|
  {
    if s == [] then 0
    else DigitsValue(s[..|s| - 1]) * 10 + (s[|s| - 1] as int - '0' as int)
  }

  /** The digits of a numeral: s without its leading sign, if it has one. */
  function Unsigned(s: string): string {
    if s != [] && (s[0] == '-' || s[0] == '+') then s[1..] else s
  }

  /** An optional sign followed by at least one decimal digit and nothing
      else. Leading zeros are allowed. */
  predicate Numeral(s: string) {
    Unsigned(s) != [] && AllDigits(Unsigned(s))
  }

  /** The value a numeral denotes, negated after a minus sign. */
  function NumeralValue(s: string): int
    requires Numeral(s)
  {
    if s[0] == '-' then -(DigitsValue(Unsigned(s)) as int) else DigitsValue(Unsigned(s))
  }

  /** strconv.ParseInt(s, 10, 0): the value of a numeral that fits a 64-bit
      int; any other string, the empty string and a lone sign included, is
      an error. */
  function ParseInt(s: string): (r: Option<int>)
    ensures r.Some? <==> Numeral(s) && MinInt64 <= NumeralValue(s) <= MaxInt64
    ensures r.Some? ==> r.value == NumeralValue(s)
  {
    if s == [] then None
    else
      var negative := s[0] == '-';
      var digits := if s[0] == '-' || s[0] == '+' then s[1..] else s;
      if digits == [] || !AllDigits(digits) then None
      else
        var v: int := if negative then -(DigitsValue(digits) as int) else DigitsValue(digits);
        if v < MinInt64 || v > MaxInt64 then None else Some(v)
  }

  lemma {:induction false} NatToStrDigits(n: nat)
    ensures NatToStr(n) != [] && AllDigits(NatToStr(n))
    ensures DigitsValue(NatToStr(n)) == n
    decreases n
  {
    if n >= 10 {
      NatToStrDigits(n / 10);
      var s := NatToStr(n);
      assert s[..|s| - 1] == NatToStr(n / 10);
    }
  }

  /** ParseInt reads back every number IntToStr writes. */
  lemma ParseIntRoundTrip(n: int)
    requires MinInt64 <= n <= MaxInt64
    ensures ParseInt(IntToStr(n)) == Some(n)
  {
    var s := IntToStr(n);
    if n < 0 {
      NatToStrDigits(-n);
      assert s[1..] == NatToStr(-n);
    } else {
      NatToStrDigits(n);
    }
  }

  /** A leading zero does not change the value of a string of digits. */
  lemma {:induction false} LeadingZeroValue(d: string)
    requires AllDigits(d)
    ensures AllDigits("0" + d) && DigitsValue("0" + d) == DigitsValue(d)
    decreases |d|
  {
    var z := "0" + d;
    assert forall k :: 0 < k < |z| ==> z[k] == d[k - 1];
    if d != [] {
      var p := d[..|d| - 1];
      assert z[..|z| - 1] == "0" + p;
      LeadingZeroValue(p);
    }
  }

  /** ParseInt also reads numbers IntToStr does not write: a plus sign and
      leading zeros are accepted. */
  lemma ParseIntLenient(n: nat)
    requires n <= MaxInt64
    ensures ParseInt("+" + IntToStr(n)) == Some(n)
    ensures ParseInt("0" + IntToStr(n)) == Some(n)
  {
    var d := IntToStr(n);
    NatToStrDigits(n);
    assert ("+" + d)[1..] == d;
    LeadingZeroValue(d);
  }
}
